/** Start-of-day synchronisation of the two spreadsheets with the Staff table
    (initialize_sheets): headers, one row per staff name, and the "Absent"
    pre-fill of today's column in the monthly sheet. */
module Roster {
  import opened Text
  import opened Clock
  import opened Sheet
  import opened Ledger
  import opened Projection

  const DailyHeaders: seq<string> := ["Name", "Department", "Status", "Time"]

  /** The staff names in the order the Staff query returned them. */
  function StaffNames(staff: seq<StaffRow>): (names: seq<string>)
    ensures |names| == |staff| && forall i :: 0 <= i < |staff| ==> names[i] == staff[i].name
  {
    seq(|staff|, i requires 0 <= i < |staff| => staff[i].name)
  }

  /** The names a left-to-right pass over `names` appends: each name not yet
      in `seen`, which the pass then adds to `seen`. Called with `{}`, this is
      also the key order of a dict built from `names`. */
  function MissingNames(names: seq<string>, seen: set<string>): seq<string>
    decreases |names|
  {
    if names == [] then []
    else if names[0] in seen then MissingNames(names[1..], seen)
    else [names[0]] + MissingNames(names[1..], seen + {names[0]})
  }

  /** The pass appends exactly the names not seen before, each once. */
  lemma {:induction false} MissingNamesSpec(names: seq<string>, seen: set<string>)
    ensures var ms := MissingNames(names, seen);
      (forall x :: x in ms <==> x in names && x !in seen) &&
      (forall i, j :: 0 <= i < j < |ms| ==> ms[i] != ms[j])
    decreases |names|
  {
    if names != [] {
      var ms := MissingNames(names, seen);
      assert forall x :: x in names <==> x == names[0] || x in names[1..];
      if names[0] in seen {
        MissingNamesSpec(names[1..], seen);
      } else {
        var rest := MissingNames(names[1..], seen + {names[0]});
        MissingNamesSpec(names[1..], seen + {names[0]});
        assert ms == [names[0]] + rest;
        forall i, j | 0 <= i < j < |ms|
          ensures ms[i] != ms[j]
        {
          if i == 0 {
            assert ms[j] == rest[j - 1];
          } else {
            assert ms[i] == rest[i - 1] && ms[j] == rest[j - 1];
          }
        }
      }
    }
  }

  /** A pass over names that were all seen already appends nothing. */
  lemma {:induction false} MissingNamesNone(names: seq<string>, seen: set<string>)
    requires forall x :: x in names ==> x in seen
    ensures MissingNames(names, seen) == []
    decreases |names|
  {
    if names != [] {
      assert names[0] in seen;
      MissingNamesNone(names[1..], seen);
    }
  }

  /** `staff_name_to_department.get(name, "N/A")`, the dict being built
      from the Staff rows in order. */
  function DeptOf(staff: seq<StaffRow>, name: string): string
    decreases |staff|
  {
    if staff == [] then "N/A"
    else if staff[|staff| - 1].name == name then staff[|staff| - 1].department
    else DeptOf(staff[..|staff| - 1], name)
  }

  /** A name's department is that of the LAST Staff row carrying it (later
      rows overwrite earlier ones in the dict), "N/A" when no row does. */
  lemma {:induction false} DeptOfLast(staff: seq<StaffRow>, name: string)
    ensures (forall i :: 0 <= i < |staff| ==> staff[i].name != name) ==> DeptOf(staff, name) == "N/A"
    ensures (exists i :: 0 <= i < |staff| && staff[i].name == name) ==>
      exists i :: 0 <= i < |staff| && staff[i].name == name && staff[i].department == DeptOf(staff, name) &&
        forall j :: i < j < |staff| ==> staff[j].name != name
    decreases |staff|
  {
    if staff != [] && staff[|staff| - 1].name != name {
      var init := staff[..|staff| - 1];
      DeptOfLast(init, name);
      if exists i :: 0 <= i < |staff| && staff[i].name == name {
        var i :| 0 <= i < |staff| && staff[i].name == name;
        assert init[i].name == name;
        var i' :| 0 <= i' < |init| && init[i'].name == name && init[i'].department == DeptOf(init, name) &&
          forall j :: i' < j < |init| ==> init[j].name != name;
        assert staff[i'] == init[i'];
      }
    }
  }

  /** A new monthly row: the name, then one blank cell per day. */
  function MonthlyRow(name: string, width: nat): seq<string>
    requires width >= 1
  {
    [name] + seq(width - 1, _ => "")
  }

  function MonthlyRows(names: seq<string>, width: nat): Grid
    requires width >= 1
  {
    seq(|names|, k requires 0 <= k < |names| => MonthlyRow(names[k], width))
  }

  /** A new daily row: the name, its department, "OUT" and no time. */
  function DailyRow(staff: seq<StaffRow>, name: string): seq<string>
  {
    [name, DeptOf(staff, name), StatusOut, ""]
  }

  function DailyRows(staff: seq<StaffRow>, names: seq<string>): Grid
  {
    seq(|names|, k requires 0 <= k < |names| => DailyRow(staff, names[k]))
  }

  /** The first loop over the staff rows: one new row per name the sheet's
      first column does not hold yet. */
  method NewMonthlyRows(staff: seq<StaffRow>, existing: set<string>, width: nat) returns (rows: Grid)
    requires width >= 1
    ensures rows == MonthlyRows(MissingNames(StaffNames(staff), existing), width)
  {
    var names := StaffNames(staff);
    var seen := existing;
    ghost var added: seq<string> := [];
    rows := [];
    var i := 0;
    while i < |staff|
      invariant 0 <= i <= |staff|
      invariant added + MissingNames(names[i..], seen) == MissingNames(names, existing)
      invariant rows == MonthlyRows(added, width)
    {
      assert names[i..][1..] == names[i + 1..];
      if staff[i].name !in seen {
        rows := rows + [MonthlyRow(staff[i].name, width)];
        added := added + [staff[i].name];
        seen := seen + {staff[i].name};
      }
      i := i + 1;
    }
    assert names[i..] == [];
  }

  /** The daily sheet's loop over the staff rows. */
  method NewDailyRows(staff: seq<StaffRow>, existing: set<string>) returns (rows: Grid)
    ensures rows == DailyRows(staff, MissingNames(StaffNames(staff), existing))
  {
    var names := StaffNames(staff);
    var seen := existing;
    ghost var added: seq<string> := [];
    rows := [];
    var i := 0;
    while i < |staff|
      invariant 0 <= i <= |staff|
      invariant added + MissingNames(names[i..], seen) == MissingNames(names, existing)
      invariant rows == DailyRows(staff, added)
    {
      assert names[i..][1..] == names[i + 1..];
      if staff[i].name !in seen {
        rows := rows + [DailyRow(staff, staff[i].name)];
        added := added + [staff[i].name];
        seen := seen + {staff[i].name};
      }
      i := i + 1;
    }
    assert names[i..] == [];
  }

  /** The value read for row `r` from a fetched column: "" past its end. */
  function CurrentValue(dayValues: seq<string>, r: Pos): string
  {
    if r >= |dayValues| + 1 then "" else dayValues[r - 1]
  }

  /** The "Absent" writes of the second pass, in the order of `keys`: one for
      each key whose row reads blank in today's column. */
  function AbsentWrites(keys: seq<string>, rows: map<string, Pos>, dayValues: seq<string>, col: Pos): (ws: seq<CellWrite>)
    requires forall k :: k in keys ==> k in rows
    ensures forall i :: 0 <= i < |ws| ==> ws[i].value == "Absent" && ws[i].col == col
    decreases |keys|
  {
    if keys == [] then []
    else
      var k := keys[|keys| - 1];
      AbsentWrites(keys[..|keys| - 1], rows, dayValues, col) +
      (if IsBlank(CurrentValue(dayValues, rows[k])) then [CellWrite(rows[k], col, "Absent")] else [])
  }

  /** Some key of `keys` has row `r`. */
  predicate KeyAt(keys: seq<string>, rows: map<string, Pos>, r: Pos)
    requires forall k :: k in keys ==> k in rows
  {
    exists k :: k in keys && rows[k] == r
  }

  lemma KeyAtSnoc(keys: seq<string>, rows: map<string, Pos>, r: Pos)
    requires keys != [] && forall k :: k in keys ==> k in rows
    ensures KeyAt(keys, rows, r) <==>
        KeyAt(keys[..|keys| - 1], rows, r) || rows[keys[|keys| - 1]] == r
  {
    var init := keys[..|keys| - 1];
    assert forall x :: x in keys <==> x in init || x == keys[|keys| - 1];
  }

  /** The pass writes to row `r` exactly when `r` is the row of one of the
      keys and reads blank. */
  lemma {:induction false} AbsentWritesRow(keys: seq<string>, rows: map<string, Pos>, dayValues: seq<string>, col: Pos, r: Pos)
    requires forall k :: k in keys ==> k in rows
    ensures WritesRow(AbsentWrites(keys, rows, dayValues, col), r) <==>
        KeyAt(keys, rows, r) && IsBlank(CurrentValue(dayValues, r))
    decreases |keys|
  {
    if keys != [] {
      var init := keys[..|keys| - 1];
      var k := keys[|keys| - 1];
      var ws0 := AbsentWrites(init, rows, dayValues, col);
      var tail := if IsBlank(CurrentValue(dayValues, rows[k])) then [CellWrite(rows[k], col, "Absent")] else [];
      assert AbsentWrites(keys, rows, dayValues, col) == ws0 + tail;
      AbsentWritesRow(init, rows, dayValues, col, r);
      WritesRowConcat(ws0, tail, r);
      KeyAtSnoc(keys, rows, r);
      if rows[k] == r && IsBlank(CurrentValue(dayValues, r)) {
        assert tail[0].row == r;
      }
    }
  }

  /** The second loop, over the name map in its key order. */
  method AbsentUpdates(keys: seq<string>, rows: map<string, Pos>, dayValues: seq<string>, col: Pos)
    returns (updates: seq<CellWrite>)
    requires forall k :: k in keys ==> k in rows
    ensures updates == AbsentWrites(keys, rows, dayValues, col)
  {
    updates := [];
    var i := 0;
    while i < |keys|
      invariant 0 <= i <= |keys|
      invariant updates == AbsentWrites(keys[..i], rows, dayValues, col)
    {
      assert keys[..i + 1][..i] == keys[..i];
      var rowIndex := rows[keys[i]];
      var currentValue := if rowIndex >= |dayValues| + 1 then "" else dayValues[rowIndex - 1];
      if IsBlank(currentValue) {
        updates := updates + [CellWrite(rowIndex, col, "Absent")];
      }
      i := i + 1;
    }
    assert keys[..i] == keys;
  }

  // ---------------------------------------------------------------------
  // Headers

  /** `update("A1", [headers])`: the headers written over the first cells of
      row 1 (cells further right are left alone). */
  function HeaderWrites(hs: seq<string>): seq<CellWrite>
  {
    seq(|hs|, j requires 0 <= j < |hs| => CellWrite(1, j + 1, hs[j]))
  }

  /** The header check: row 1 is rewritten only when it does not read back
      as exactly `hs`. */
  function FixHeader(g: Grid, hs: seq<string>): Grid
  {
    if RowValues(g, 1) == hs then g else ApplyWrites(g, HeaderWrites(hs))
  }

  /** Row 1 starts with `hs`. */
  predicate HasHeader(g: Grid, hs: seq<string>)
  {
    forall j :: 0 <= j < |hs| ==> Cell(g, 1, j + 1) == hs[j]
  }

  predicate NoneBlank(hs: seq<string>)
  {
    forall j :: 0 <= j < |hs| ==> !IsBlank(hs[j])
  }

  /** After the check row 1 starts with the headers; no other row changes. */
  lemma FixHeaderCell(g: Grid, hs: seq<string>, r: Pos, c: Pos)
    ensures Cell(FixHeader(g, hs), r, c) ==
      if RowValues(g, 1) != hs && r == 1 && c <= |hs| then hs[c - 1] else Cell(g, r, c)
    ensures HasHeader(FixHeader(g, hs), hs)
  {
    var ws := HeaderWrites(hs);
    if RowValues(g, 1) == hs {
      var row := if 1 <= |g| then g[0] else [];
      assert hs == row[..|hs|];
    } else {
      ApplyWritesCell(g, ws, r, c);
      if r == 1 && c <= |hs| {
        LastWriteUnique(ws, c - 1);
      } else {
        LastWriteNone(ws, r, c);
      }
      forall j | 0 <= j < |hs|
        ensures Cell(FixHeader(g, hs), 1, j + 1) == hs[j]
      {
        ApplyWritesCell(g, ws, 1, j + 1);
        LastWriteUnique(ws, j);
      }
    }
  }

  /** A sheet whose row 1 already starts with non-blank headers is left as
      it is. */
  lemma FixHeaderKeeps(g: Grid, hs: seq<string>)
    requires HasHeader(g, hs) && NoneBlank(hs)
    ensures FixHeader(g, hs) == g
  {
    if RowValues(g, 1) != hs {
      var ws := HeaderWrites(hs);
      forall i | 0 <= i < |ws|
        ensures ws[i].row <= |g| && ws[i].col <= |g[ws[i].row - 1]| && g[ws[i].row - 1][ws[i].col - 1] == ws[i].value
      {
        assert Cell(g, 1, i + 1) == hs[i] && hs[i] != "";
      }
      ApplyWritesSame(g, ws);
    }
  }

  /** Row 1 of a sheet with non-blank headers reads back starting with them. */
  lemma HeaderRead(g: Grid, hs: seq<string>)
    requires HasHeader(g, hs) && NoneBlank(hs) && hs != []
    ensures |RowValues(g, 1)| >= |hs| && RowValues(g, 1)[..|hs|] == hs
  {
    assert Cell(g, 1, 1) == hs[0] && hs[0] != "";
    var row := g[0];
    assert Cell(g, 1, |hs|) == hs[|hs| - 1] && hs[|hs| - 1] != "";
    var t := RowValues(g, 1);
    assert row[|hs| - 1] != "";
    forall j | 0 <= j < |hs|
      ensures t[j] == hs[j]
    {
      assert Cell(g, 1, j + 1) == hs[j];
    }
  }

  lemma IndexOfAt(s: seq<string>, x: string, d: nat)
    requires d < |s| && s[d] == x && x !in s[..d]
    ensures IndexOf(s, x) == Some(d)
  {
    assert s[..d + 1][d] == x;
  }

  lemma MonthlyHeadersNotBlank(y: nat, m: nat)
    requires 1 <= m <= 12
    ensures NoneBlank(MonthlyHeaders(y, m)) && MonthlyHeaders(y, m) != []
  {
    var hs := MonthlyHeaders(y, m);
    forall j | 0 <= j < |hs|
      ensures !IsBlank(hs[j])
    {
      if j == 0 {
        assert !IsSpace(hs[0][0]);
      } else {
        assert hs[j] == DateHeaders(y, m)[j - 1];
        DateStringNotBlank(y, m, j);
      }
    }
  }

  lemma DateStringNotBlank(y: nat, m: nat, d: nat)
    requires m < 100 && d < 100
    ensures !IsBlank(DateString(y, m, d))
  {
    var s := DateString(y, m, d);
    assert s[0] == Decimal(y)[0];
    assert !IsSpace(s[0]);
  }

  lemma DailyHeadersNotBlank()
    ensures NoneBlank(DailyHeaders)
  {
    forall j | 0 <= j < |DailyHeaders|
      ensures !IsBlank(DailyHeaders[j])
    {
      assert !IsSpace(DailyHeaders[j][0]);
    }
  }

  // ---------------------------------------------------------------------
  // Monthly sheet

  /** The first pass and the append: one blank row for every staff name the
      first column does not hold yet. */
  function SyncMonthly(g: Grid, staff: seq<StaffRow>, width: nat): Grid
    requires width >= 1
  {
    g + MonthlyRows(MissingNames(StaffNames(staff), set x | x in ColValues(g, 1)), width)
  }

  /** The writes of the second pass over the name map. */
  function PrefillWrites(g: Grid, col: Pos): (ws: seq<CellWrite>)
    ensures forall i :: 0 <= i < |ws| ==> ws[i].value == "Absent" && ws[i].col == col
  {
    var names := ColValues(g, 1);
    MissingNamesSpec(names, {});
    AbsentWrites(MissingNames(names, {}), RowIndex(names), ColValues(g, col), col)
  }

  /** The second pass and its batch update. */
  function MarkAbsent(g: Grid, col: Pos): Grid
  {
    ApplyWrites(g, PrefillWrites(g, col))
  }

  /** The pass writes to exactly the rows the name map points to whose cell
      in today's column is blank. */
  lemma PrefillWritesRow(g: Grid, col: Pos, r: Pos)
    ensures WritesRow(PrefillWrites(g, col), r) <==>
        r in RowIndex(ColValues(g, 1)).Values && IsBlank(Cell(g, r, col))
  {
    var names := ColValues(g, 1);
    var rows := RowIndex(names);
    var keys := MissingNames(names, {});
    MissingNamesSpec(names, {});
    AbsentWritesRow(keys, rows, ColValues(g, col), col, r);
    ColValuesAt(g, col, r);
    if r in rows.Values {
      var k :| k in rows && rows[k] == r;
      assert k in keys;
    }
  }

  /** What the monthly setup returns: the sheet, today's column and the
      name-to-row map. */
  datatype MonthlySetup = MonthlySetup(grid: Grid, todayCol: Pos, rows: map<string, Pos>)

  /** The monthly half of initialize_sheets; None is the exit taken when
      today's date is missing from the header row. */
  function InitMonthly(g: Grid, staff: seq<StaffRow>, today: Date): Option<MonthlySetup>
    requires ValidDate(today)
  {
    var hs := MonthlyHeaders(today.year, today.month);
    Locate(FixHeader(g, hs), staff, |hs|, DateString(today.year, today.month, today.day))
  }

  /** After the header check: look up today's header `x` in row 1 and, when
      it is there, prepare the sheet with today's column next to it. */
  function Locate(g1: Grid, staff: seq<StaffRow>, width: nat, x: string): Option<MonthlySetup>
    requires width >= 1
  {
    match IndexOf(RowValues(g1, 1), x)
    case None => None
    case Some(i) => Some(Prepare(g1, staff, width, i + 1))
  }

  /** The rest of the monthly setup once today's column `col` is known: the
      first pass and its append, then the name map and the pre-fill. */
  function Prepare(g1: Grid, staff: seq<StaffRow>, width: nat, col: Pos): MonthlySetup
    requires width >= 1
  {
    var g2 := SyncMonthly(g1, staff, width);
    MonthlySetup(MarkAbsent(g2, col), col, RowIndex(ColValues(g2, 1)))
  }

  /** Today's column in the monthly sheet: the name column, then one per day. */
  function DayColumn(today: Date): Pos
  {
    today.day + 1
  }

  /** The monthly setup as its three stages, with today's column at day + 1. */
  lemma InitMonthlyStages(g: Grid, staff: seq<StaffRow>, today: Date)
    requires ValidDate(today)
    ensures InitMonthly(g, staff, today) ==
      Some(Prepare(FixHeader(g, MonthlyHeaders(today.year, today.month)), staff,
                   |MonthlyHeaders(today.year, today.month)|, DayColumn(today)))
  {
    TodayColumnFound(g, staff, today);
  }

  /** The pre-fill writes "Absent" into today's column exactly at the rows the
      name map points to whose cell is blank; every other cell is kept. */
  lemma AbsentFill(g: Grid, col: Pos, r: Pos, c: Pos)
    ensures Cell(MarkAbsent(g, col), r, c) ==
      if c == col && r in RowIndex(ColValues(g, 1)).Values && IsBlank(Cell(g, r, col)) then "Absent"
      else Cell(g, r, c)
  {
    var ws := PrefillWrites(g, col);
    ApplyWritesCell(g, ws, r, c);
    LastWriteUniform(ws, "Absent", r, c);
    PrefillWritesRow(g, col, r);
    if c == col && WritesRow(ws, r) {
      var i :| 0 <= i < |ws| && ws[i].row == r;
      assert ws[i].col == c;
    }
  }

  /** Today's column is always found: after the header check row 1 starts
      with the month's headers, and today's date sits in column day + 1. */
  lemma {:induction false} TodayColumnFound(g: Grid, staff: seq<StaffRow>, today: Date)
    requires ValidDate(today)
    ensures InitMonthly(g, staff, today).Some?
    ensures InitMonthly(g, staff, today).value.todayCol == DayColumn(today)
  {
    var hs := MonthlyHeaders(today.year, today.month);
    var g1 := FixHeader(g, hs);
    FixHeaderCell(g, hs, 1, 1);
    MonthlyHeadersNotBlank(today.year, today.month);
    HeaderFindsToday(g1, today);
  }

  /** In a sheet whose row 1 starts with the month's headers, today's date is
      found at position `today.day`. */
  lemma HeaderFindsToday(g: Grid, today: Date)
    requires ValidDate(today) && HasHeader(g, MonthlyHeaders(today.year, today.month))
    ensures IndexOf(RowValues(g, 1), DateString(today.year, today.month, today.day)) == Some(today.day)
  {
    MonthlyHeadersNotBlank(today.year, today.month);
    TodayColumn(today);
    HeaderFinds(g, MonthlyHeaders(today.year, today.month), DateString(today.year, today.month, today.day));
  }

  /** A header found in the expected headers is found at the same place in
      a row that starts with them. */
  lemma HeaderFinds(g: Grid, hs: seq<string>, x: string)
    requires HasHeader(g, hs) && NoneBlank(hs) && hs != [] && IndexOf(hs, x).Some?
    ensures IndexOf(RowValues(g, 1), x) == IndexOf(hs, x)
  {
    var d := IndexOf(hs, x).value;
    var s := RowValues(g, 1);
    HeaderRead(g, hs);
    assert s[..|hs|][..d] == s[..d];
    assert s[d] == s[..|hs|][d];
    IndexOfAt(s, x, d);
  }

  /** Every staff member has a non-empty name. */
  predicate NamedStaff(staff: seq<StaffRow>)
  {
    forall i :: 0 <= i < |staff| ==> staff[i].name != ""
  }

  /** After appending one row per missing name, every staff name reads back
      from the first column. */
  lemma {:induction false} RosterComplete(g: Grid, extra: Grid, staff: seq<StaffRow>)
    requires NamedStaff(staff)
    requires var ms := MissingNames(StaffNames(staff), set x | x in ColValues(g, 1));
      |extra| == |ms| && forall k :: 0 <= k < |ms| ==> |extra[k]| >= 1 && extra[k][0] == ms[k]
    ensures forall n :: n in StaffNames(staff) ==> n in ColValues(g + extra, 1)
  {
    var names := StaffNames(staff);
    var ms := MissingNames(names, set x | x in ColValues(g, 1));
    MissingNamesSpec(names, set x | x in ColValues(g, 1));
    forall k | 0 <= k < |ms|
      ensures ms[k] != ""
    {
      assert ms[k] in names;
    }
    AppendedNames(g, extra, ms);
    forall n | n in names
      ensures n in ColValues(g + extra, 1)
    {
      if n in ColValues(g, 1) && ms != [] {
        var i :| 0 <= i < |ColValues(g, 1)| && ColValues(g, 1)[i] == n;
        assert (Column(g, 1) + ms)[i] == n;
      }
    }
  }

  /** Initialisation never moves a cell of a staff row backwards: headers
      only touch row 1, appended rows were empty before, and the pre-fill
      only writes "Absent" over blank cells. */
  lemma InitNeverDowngrades(g: Grid, staff: seq<StaffRow>, today: Date, r: Pos, c: Pos)
    requires ValidDate(today) && r >= 2
    ensures InitMonthly(g, staff, today).Some?
    ensures Rank(Cell(InitMonthly(g, staff, today).value.grid, r, c)) >= Rank(Cell(g, r, c))
  {
    var hs := MonthlyHeaders(today.year, today.month);
    InitMonthlyStages(g, staff, today);
    StagesNeverDowngrade(g, hs, staff, |hs|, DayColumn(today), r, c);
  }

  lemma StagesNeverDowngrade(g: Grid, hs: seq<string>, staff: seq<StaffRow>, width: nat, col: Pos, r: Pos, c: Pos)
    requires width >= 1 && r >= 2
    ensures Rank(Cell(MarkAbsent(SyncMonthly(FixHeader(g, hs), staff, width), col), r, c)) >= Rank(Cell(g, r, c))
  {
    var g1 := FixHeader(g, hs);
    var g2 := SyncMonthly(g1, staff, width);
    FixHeaderCell(g, hs, r, c);
    AppendCell(g1, g2[|g1|..], r, c);
    assert g2 == g1 + g2[|g1|..];
    assert r > |g1| ==> Cell(g1, r, c) == "" && IsBlank("");
    AbsentFill(g2, col, r, c);
  }

  /** The pre-fill leaves the name column alone (today's column is never
      the first). */
  lemma MarkAbsentKeepsNames(g: Grid, col: Pos)
    requires col != 1
    ensures ColValues(MarkAbsent(g, col), 1) == ColValues(g, 1)
  {
    forall r: Pos
      ensures Cell(MarkAbsent(g, col), r, 1) == Cell(g, r, 1)
    {
      AbsentFill(g, col, r, 1);
    }
    ColValuesExt(MarkAbsent(g, col), g, 1);
  }

  /** A second pre-fill finds nothing blank left to mark. */
  lemma MarkAbsentIdempotent(g: Grid, col: Pos)
    requires col != 1
    ensures MarkAbsent(MarkAbsent(g, col), col) == MarkAbsent(g, col)
  {
    var g3 := MarkAbsent(g, col);
    MarkAbsentKeepsNames(g, col);
    forall r | r in RowIndex(ColValues(g, 1)).Values
      ensures !IsBlank(Cell(g3, r, col))
    {
      MarkedNotBlank(g, col, r);
    }
    PrefillNone(g3, col);
  }

  /** After the pre-fill no mapped row is blank in today's column. */
  lemma MarkedNotBlank(g: Grid, col: Pos, r: Pos)
    requires r in RowIndex(ColValues(g, 1)).Values
    ensures !IsBlank(Cell(MarkAbsent(g, col), r, col))
  {
    AbsentFill(g, col, r, col);
    AbsentNotBlank();
  }

  lemma AbsentNotBlank()
    ensures !IsBlank("Absent")
  {
    assert !IsSpace("Absent"[0]);
  }

  /** With no blank cell left at the mapped rows, the pass writes nothing. */
  lemma PrefillNone(g: Grid, col: Pos)
    requires forall r | r in RowIndex(ColValues(g, 1)).Values :: !IsBlank(Cell(g, r, col))
    ensures MarkAbsent(g, col) == g
  {
    var ws := PrefillWrites(g, col);
    if ws != [] {
      PrefillWritesRow(g, col, ws[0].row);
    }
  }

  /** The pre-fill keeps row 1 when it starts with non-blank headers. */
  lemma MarkAbsentKeepsHeader(g: Grid, hs: seq<string>, col: Pos)
    requires HasHeader(g, hs) && NoneBlank(hs)
    ensures HasHeader(MarkAbsent(g, col), hs)
  {
    forall j | 0 <= j < |hs|
      ensures Cell(MarkAbsent(g, col), 1, j + 1) == hs[j]
    {
      AbsentFill(g, col, 1, j + 1);
    }
  }

  /** With every staff name in the first column, the first pass appends
      nothing. */
  lemma SyncMonthlyComplete(g: Grid, staff: seq<StaffRow>, width: nat)
    requires width >= 1
    requires forall n :: n in StaffNames(staff) ==> n in ColValues(g, 1)
    ensures SyncMonthly(g, staff, width) == g
  {
    var ms := MissingNames(StaffNames(staff), set x | x in ColValues(g, 1));
    MissingNamesNone(StaffNames(staff), set x | x in ColValues(g, 1));
  }

  /** The same for the daily sheet. */
  lemma SyncDailyComplete(g: Grid, staff: seq<StaffRow>)
    requires forall n :: n in StaffNames(staff) ==> n in ColValues(g, 1)
    ensures SyncDaily(g, staff) == g
  {
    var ms := MissingNames(StaffNames(staff), set x | x in ColValues(g, 1));
    MissingNamesNone(StaffNames(staff), set x | x in ColValues(g, 1));
  }

  /** After the header check and the first pass, row 1 starts with the
      headers and every staff name is in the first column. */
  lemma SyncMonthlyReady(g: Grid, hs: seq<string>, staff: seq<StaffRow>)
    requires NamedStaff(staff) && NoneBlank(hs) && hs != []
    ensures HasHeader(SyncMonthly(FixHeader(g, hs), staff, |hs|), hs)
    ensures forall n :: n in StaffNames(staff) ==> n in ColValues(SyncMonthly(FixHeader(g, hs), staff, |hs|), 1)
  {
    var g1 := FixHeader(g, hs);
    var ms := MissingNames(StaffNames(staff), set x | x in ColValues(g1, 1));
    var g2 := SyncMonthly(g1, staff, |hs|);
    FixHeaderCell(g, hs, 1, 1);
    assert Cell(g1, 1, 1) == hs[0] && hs[0] != "";
    forall j | 0 <= j < |hs|
      ensures Cell(g2, 1, j + 1) == hs[j]
    {
      AppendCell(g1, MonthlyRows(ms, |hs|), 1, j + 1);
    }
    RosterComplete(g1, MonthlyRows(ms, |hs|), staff);
  }

  /** A sheet that already has the headers and every staff name is left
      alone by a second header check, first pass and pre-fill. */
  lemma PrepareStable(g1: Grid, hs: seq<string>, staff: seq<StaffRow>, width: nat, col: Pos)
    requires NoneBlank(hs) && col != 1 && width >= 1
    requires HasHeader(SyncMonthly(g1, staff, width), hs)
    requires forall n :: n in StaffNames(staff) ==> n in ColValues(SyncMonthly(g1, staff, width), 1)
    ensures FixHeader(Prepare(g1, staff, width, col).grid, hs) == Prepare(g1, staff, width, col).grid
    ensures Prepare(Prepare(g1, staff, width, col).grid, staff, width, col) == Prepare(g1, staff, width, col)
  {
    var g2 := SyncMonthly(g1, staff, width);
    var g3 := MarkAbsent(g2, col);
    MarkAbsentKeepsHeader(g2, hs, col);
    FixHeaderKeeps(g3, hs);
    MarkAbsentKeepsNames(g2, col);
    SyncMonthlyComplete(g3, staff, width);
    MarkAbsentIdempotent(g2, col);
  }

  /** Running the monthly setup a second time on its own result changes
      nothing and returns the same column and name map. */
  lemma InitMonthlyIdempotent(g: Grid, staff: seq<StaffRow>, today: Date)
    requires ValidDate(today) && NamedStaff(staff)
    ensures InitMonthly(g, staff, today).Some?
    ensures InitMonthly(InitMonthly(g, staff, today).value.grid, staff, today) == InitMonthly(g, staff, today)
  {
    var hs := MonthlyHeaders(today.year, today.month);
    var p := Prepare(FixHeader(g, hs), staff, |hs|, DayColumn(today));
    InitMonthlyStages(g, staff, today);
    InitMonthlyStages(p.grid, staff, today);
    MonthlyPreparedStable(g, staff, today.year, today.month, DayColumn(today));
  }

  lemma MonthlyPreparedStable(g: Grid, staff: seq<StaffRow>, y: nat, m: nat, col: Pos)
    requires 1 <= m <= 12 && NamedStaff(staff) && col != 1
    ensures PrepareTwice(g, staff, MonthlyHeaders(y, m), col) ==
            Prepare(FixHeader(g, MonthlyHeaders(y, m)), staff, |MonthlyHeaders(y, m)|, col)
  {
    MonthlyHeadersNotBlank(y, m);
    PreparedStable(g, staff, MonthlyHeaders(y, m), col);
  }

  /** The header check and preparation run a second time on their own result. */
  function PrepareTwice(g: Grid, staff: seq<StaffRow>, hs: seq<string>, col: Pos): MonthlySetup
    requires hs != []
  {
    Prepare(FixHeader(Prepare(FixHeader(g, hs), staff, |hs|, col).grid, hs), staff, |hs|, col)
  }

  lemma PreparedStable(g: Grid, staff: seq<StaffRow>, hs: seq<string>, col: Pos)
    requires NamedStaff(staff) && NoneBlank(hs) && hs != [] && col != 1
    ensures PrepareTwice(g, staff, hs, col) == Prepare(FixHeader(g, hs), staff, |hs|, col)
  {
    SyncMonthlyReady(g, hs, staff);
    PrepareStable(FixHeader(g, hs), hs, staff, |hs|, col);
  }

  // ---------------------------------------------------------------------
  // Daily sheet

  /** The daily loop over the staff rows and its append. */
  function SyncDaily(g: Grid, staff: seq<StaffRow>): Grid
  {
    g + DailyRows(staff, MissingNames(StaffNames(staff), set x | x in ColValues(g, 1)))
  }

  datatype DailySetup = DailySetup(grid: Grid, rows: map<string, Pos>)

  /** The daily half of initialize_sheets. */
  function InitDaily(g: Grid, staff: seq<StaffRow>): DailySetup
  {
    var g2 := SyncDaily(FixHeader(g, DailyHeaders), staff);
    DailySetup(g2, RowIndex(ColValues(g2, 1)))
  }

  /** After the daily setup every staff name has a row, and a name that had
      none starts out as "OUT" with no time and its department. */
  lemma DailyRosterComplete(g: Grid, staff: seq<StaffRow>, n: string)
    requires NamedStaff(staff) && n in StaffNames(staff)
    ensures n in InitDaily(g, staff).rows
    ensures n !in ColValues(FixHeader(g, DailyHeaders), 1) ==>
      RowsHold(InitDaily(g, staff).grid, n, [n, DeptOf(staff, n), StatusOut, ""])
  {
    var g1 := FixHeader(g, DailyHeaders);
    var g2 := SyncDaily(g1, staff);
    var d := DailySetup(g2, RowIndex(ColValues(g2, 1)));
    assert InitDaily(g, staff) == d;
    SyncDailyReady(g, staff);
    assert n in ColValues(g2, 1);
    assert n in d.rows;
    if n !in ColValues(g1, 1) {
      SyncDailyNewRow(g1, staff, n);
    }
  }

  /** The row the daily pass appends for a name is the row the name map
      points at. */
  lemma SyncDailyNewRow(g1: Grid, staff: seq<StaffRow>, n: string)
    requires NamedStaff(staff) && n in StaffNames(staff) && n !in ColValues(g1, 1)
    ensures RowsHold(SyncDaily(g1, staff), n, DailyRow(staff, n))
  {
    var seen := set x | x in ColValues(g1, 1);
    var ms := MissingNames(StaffNames(staff), seen);
    var extra := DailyRows(staff, ms);
    assert SyncDaily(g1, staff) == g1 + extra;
    MissingNamesSpec(StaffNames(staff), seen);
    NewNamesNonEmpty(staff, ms, seen);
    assert n in ms;
    var k :| 0 <= k < |ms| && ms[k] == n;
    AppendedRowHolds(g1, extra, ms, k);
  }

  /** The names the pass appends are staff names, hence non-empty. */
  lemma NewNamesNonEmpty(staff: seq<StaffRow>, ms: seq<string>, seen: set<string>)
    requires NamedStaff(staff) && ms == MissingNames(StaffNames(staff), seen)
    ensures forall j :: 0 <= j < |ms| ==> ms[j] != ""
  {
    MissingNamesSpec(StaffNames(staff), seen);
    forall j | 0 <= j < |ms|
      ensures ms[j] != ""
    {
      assert ms[j] in StaffNames(staff);
    }
  }

  /** After the header check and the daily pass, row 1 starts with the
      headers and every staff name is in the first column. */
  lemma SyncDailyReady(g: Grid, staff: seq<StaffRow>)
    requires NamedStaff(staff)
    ensures var g2 := SyncDaily(FixHeader(g, DailyHeaders), staff);
      HasHeader(g2, DailyHeaders) && forall n :: n in StaffNames(staff) ==> n in ColValues(g2, 1)
  {
    var g1 := FixHeader(g, DailyHeaders);
    var ms := MissingNames(StaffNames(staff), set x | x in ColValues(g1, 1));
    FixHeaderCell(g, DailyHeaders, 1, 1);
    assert Cell(g1, 1, 1) == "Name";
    forall j | 0 <= j < |DailyHeaders|
      ensures Cell(SyncDaily(g1, staff), 1, j + 1) == DailyHeaders[j]
    {
      AppendCell(g1, DailyRows(staff, ms), 1, j + 1);
    }
    RosterComplete(g1, DailyRows(staff, ms), staff);
  }

  /** Running the daily setup a second time changes nothing. */
  lemma InitDailyIdempotent(g: Grid, staff: seq<StaffRow>)
    requires NamedStaff(staff)
    ensures InitDaily(InitDaily(g, staff).grid, staff) == InitDaily(g, staff)
  {
    var g2 := SyncDaily(FixHeader(g, DailyHeaders), staff);
    SyncDailyReady(g, staff);
    DailyHeadersNotBlank();
    FixHeaderKeeps(g2, DailyHeaders);
    SyncDailyComplete(g2, staff);
  }

  // ---------------------------------------------------------------------
  // initialize_sheets

  /** What initialize_sheets hands to the scan loop: today's column in the
      monthly sheet and the two name-to-row maps. */
  datatype Session = Session(todayCol: Pos, monthRows: map<string, Pos>, dailyRows: map<string, Pos>)

  /** The lookup found today's header at `i`, and `m` is the sheet prepared
      with today's column at `i + 1`: that is the monthly setup. */
  lemma LocateFound(g1: Grid, staff: seq<StaffRow>, width: nat, x: string, i: nat, m: MonthlySetup)
    requires width >= 1 && IndexOf(RowValues(g1, 1), x) == Some(i)
    requires m == Prepare(g1, staff, width, i + 1)
    ensures Locate(g1, staff, width, x) == Some(m)
  {
  }

  /** The header check on a worksheet. */
  method CheckHeaders(sheet: Worksheet, hs: seq<string>)
    modifies sheet
    ensures sheet.cells == FixHeader(old(sheet.cells), hs)
  {
    if RowValues(sheet.cells, 1) != hs {
      sheet.BatchUpdate(HeaderWrites(hs));
    }
  }

  /** The monthly setup once today's column is known. */
  method PrepareMonthly(month: Worksheet, staff: seq<StaffRow>, width: nat, col: Pos) returns (setup: MonthlySetup)
    requires width >= 1
    modifies month
    ensures setup == Prepare(old(month.cells), staff, width, col) && month.cells == setup.grid
  {
    var names := ColValues(month.cells, 1);
    var newRows := NewMonthlyRows(staff, (set x | x in names), width);
    if newRows != [] {
      month.AppendRows(newRows);
      names := ColValues(month.cells, 1);
    } else {
      assert month.cells + newRows == month.cells;
    }
    var rows := RowIndex(names);
    var dayValues := ColValues(month.cells, col);
    MissingNamesSpec(names, {});
    var updates := AbsentUpdates(MissingNames(names, {}), rows, dayValues, col);
    if updates != [] {
      month.BatchUpdate(updates);
    }
    setup := MonthlySetup(month.cells, col, rows);
  }

  /** The monthly half of initialize_sheets; None is the exit taken when
      today's column is missing. */
  method SetUpMonthly(month: Worksheet, staff: seq<StaffRow>, today: Date) returns (setup: Option<MonthlySetup>)
    requires ValidDate(today)
    modifies month
    ensures setup == InitMonthly(old(month.cells), staff, today)
    ensures month.cells == match setup
      case None => FixHeader(old(month.cells), MonthlyHeaders(today.year, today.month))
      case Some(m) => m.grid
  {
    ghost var g0 := month.cells;
    var hs := MonthlyHeaders(today.year, today.month);
    var x := DateString(today.year, today.month, today.day);
    CheckHeaders(month, hs);
    ghost var g1 := month.cells;
    assert InitMonthly(g0, staff, today) == Locate(g1, staff, |hs|, x);
    var found := IndexOf(RowValues(month.cells, 1), x);
    if found.None? {
      return None;
    }
    var m := PrepareMonthly(month, staff, |hs|, found.value + 1);
    LocateFound(g1, staff, |hs|, x, found.value, m);
    setup := Some(m);
  }

  /** The daily half of initialize_sheets. */
  method SetUpDaily(daily: Worksheet, staff: seq<StaffRow>) returns (rows: map<string, Pos>)
    modifies daily
    ensures DailySetup(daily.cells, rows) == InitDaily(old(daily.cells), staff)
  {
    CheckHeaders(daily, DailyHeaders);
    var dailyNames := ColValues(daily.cells, 1);
    var dailyNew := NewDailyRows(staff, set x | x in dailyNames);
    if dailyNew != [] {
      daily.AppendRows(dailyNew);
    } else {
      assert daily.cells + dailyNew == daily.cells;
    }
    rows := RowIndex(ColValues(daily.cells, 1));
  }

  /** initialize_sheets on the two worksheets. None is the exit taken when
      today's column is missing, before the daily sheet is touched. */
  method InitializeSheets(month: Worksheet, daily: Worksheet, staff: seq<StaffRow>, today: Date)
    returns (session: Option<Session>)
    requires ValidDate(today) && month != daily
    modifies month, daily
    ensures match InitMonthly(old(month.cells), staff, today)
      case None =>
        session.None? &&
        month.cells == FixHeader(old(month.cells), MonthlyHeaders(today.year, today.month)) &&
        daily.cells == old(daily.cells)
      case Some(m) =>
        var d := InitDaily(old(daily.cells), staff);
        month.cells == m.grid && daily.cells == d.grid &&
        session == Some(Session(m.todayCol, m.rows, d.rows))
  {
    var m := SetUpMonthly(month, staff, today);
    if m.None? {
      return None;
    }
    var dailyRows := SetUpDaily(daily, staff);
    session := Some(Session(m.value.todayCol, m.value.rows, dailyRows));
  }
}
