/** auto_mark_out_all_users: after 16:00 every record still active today
    whose tag has a non-empty Staff name is closed in one transaction, and
    the daily sheet rows of those staff are set to OUT with the sweep's
    time. Records of other tags stay open. */
module Sweep {
  import opened Text
  import opened Clock
  import opened Sheet
  import opened Ledger
  import opened Store
  import opened Projection

  /** The daily row the sweep writes for a tag: the row of its non-empty
      Staff name, if the daily sheet has one. */
  function RowOf(staff: seq<StaffRow>, rows: map<string, Pos>, tag: string): Option<Pos>
  {
    if HasStaffName(staff, tag) && StaffName(staff, tag).value in rows
    then Some(rows[StaffName(staff, tag).value]) else None
  }

  /** The daily sheet writes collected for one selected record: Status
      "OUT" and the time in its name's row, or nothing when it has none. */
  function RecordWrites(staff: seq<StaffRow>, rows: map<string, Pos>, timeText: string, x: OnsiteRecord): seq<CellWrite>
  {
    match RowOf(staff, rows, x.tag)
    case Some(row) => DailyWrites(row, StatusOut, timeText)
    case None => []
  }

  /** The daily sheet writes the sweep collects for the selected records, in
      selection order. */
  function SweepWrites(staff: seq<StaffRow>, sel: seq<OnsiteRecord>, rows: map<string, Pos>, timeText: string): seq<CellWrite>
  {
    if sel == [] then []
    else RecordWrites(staff, rows, timeText, sel[0]) + SweepWrites(staff, sel[1..], rows, timeText)
  }

  /** Every write is "OUT" in the Status column or `timeText` in the Time
      column. */
  predicate OutWrites(ws: seq<CellWrite>, timeText: string)
  {
    forall i :: 0 <= i < |ws| ==>
      (ws[i].col == 3 && ws[i].value == StatusOut) || (ws[i].col == 4 && ws[i].value == timeText)
  }

  /** Every collected write is "OUT" in the Status column or the sweep's
      time in the Time column. */
  lemma {:induction false} SweepWritesValues(staff: seq<StaffRow>, sel: seq<OnsiteRecord>, rows: map<string, Pos>, timeText: string)
    ensures OutWrites(SweepWrites(staff, sel, rows, timeText), timeText)
    decreases |sel|
  {
    if sel != [] {
      SweepWritesValues(staff, sel[1..], rows, timeText);
      var head: seq<CellWrite> := RecordWrites(staff, rows, timeText, sel[0]);
      var tail: seq<CellWrite> := SweepWrites(staff, sel[1..], rows, timeText);
      assert OutWrites(head, timeText);
      forall i | 0 <= i < |head + tail|
        ensures ((head + tail)[i].col == 3 && (head + tail)[i].value == StatusOut) ||
                ((head + tail)[i].col == 4 && (head + tail)[i].value == timeText)
      {
        if i >= |head| {
          assert (head + tail)[i] == tail[i - |head|];
        } else {
          assert (head + tail)[i] == head[i];
        }
      }
    }
  }

  /** Some selected record's tag maps to daily row `r`. */
  predicate Swept(staff: seq<StaffRow>, sel: seq<OnsiteRecord>, rows: map<string, Pos>, r: Pos)
  {
    exists x :: x in sel && RowOf(staff, rows, x.tag) == Some(r)
  }

  /** Some record active on `day` has a tag that maps to daily row `r`. */
  predicate MarkedOut(staff: seq<StaffRow>, rs: seq<OnsiteRecord>, rows: map<string, Pos>, day: int, r: Pos)
  {
    exists x :: x in rs && x.active && x.scan.day == day && RowOf(staff, rows, x.tag) == Some(r)
  }

  lemma RecordWritesHit(staff: seq<StaffRow>, rows: map<string, Pos>, timeText: string, x: OnsiteRecord, r: Pos, c: Pos)
    requires c == 3 || c == 4
    ensures Addresses(RecordWrites(staff, rows, timeText, x), r, c) <==> RowOf(staff, rows, x.tag) == Some(r)
  {
    var ws := RecordWrites(staff, rows, timeText, x);
    if RowOf(staff, rows, x.tag) == Some(r) {
      var i := if c == 3 then 0 else 1;
      assert ws[i].row == r && ws[i].col == c;
    }
  }

  lemma SweptStep(staff: seq<StaffRow>, sel: seq<OnsiteRecord>, rows: map<string, Pos>, r: Pos)
    requires sel != []
    ensures Swept(staff, sel, rows, r) <==> RowOf(staff, rows, sel[0].tag) == Some(r) || Swept(staff, sel[1..], rows, r)
  {
    if Swept(staff, sel, rows, r) {
      var x :| x in sel && RowOf(staff, rows, x.tag) == Some(r);
      if x != sel[0] {
        assert x in sel[1..];
      }
    }
    if Swept(staff, sel[1..], rows, r) {
      var x :| x in sel[1..] && RowOf(staff, rows, x.tag) == Some(r);
      assert x in sel;
    }
    assert sel[0] in sel;
  }

  /** The collected writes address (r, 3) and (r, 4) exactly for the rows of
      the selected records. */
  lemma {:induction false} SweepWritesHit(staff: seq<StaffRow>, sel: seq<OnsiteRecord>, rows: map<string, Pos>, timeText: string, r: Pos, c: Pos)
    requires c == 3 || c == 4
    ensures Addresses(SweepWrites(staff, sel, rows, timeText), r, c) <==> Swept(staff, sel, rows, r)
    decreases |sel|
  {
    if sel != [] {
      SweepWritesHit(staff, sel[1..], rows, timeText, r, c);
      RecordWritesHit(staff, rows, timeText, sel[0], r, c);
      AddressesConcat(RecordWrites(staff, rows, timeText, sel[0]), SweepWrites(staff, sel[1..], rows, timeText), r, c);
      SweptStep(staff, sel, rows, r);
    }
  }

  /** Applying the collected writes sets Status to "OUT" and Time to the
      sweep's time in the row of every selected record, and changes no other
      cell, whatever the order of the selection. */
  lemma SweepDailyCell(g: Grid, staff: seq<StaffRow>, sel: seq<OnsiteRecord>, rows: map<string, Pos>, timeText: string, r: Pos, c: Pos)
    ensures Cell(ApplyWrites(g, SweepWrites(staff, sel, rows, timeText)), r, c) ==
      if Swept(staff, sel, rows, r) && c == 3 then StatusOut
      else if Swept(staff, sel, rows, r) && c == 4 then timeText
      else Cell(g, r, c)
  {
    var ws := SweepWrites(staff, sel, rows, timeText);
    SweepWritesValues(staff, sel, rows, timeText);
    ApplyWritesCell(g, ws, r, c);
    if c == 3 {
      LastWriteUniform(ws, StatusOut, r, c);
      SweepWritesHit(staff, sel, rows, timeText, r, c);
    } else if c == 4 {
      LastWriteUniform(ws, timeText, r, c);
      SweepWritesHit(staff, sel, rows, timeText, r, c);
    } else {
      LastWriteNone(ws, r, c);
    }
  }

  /** auto_mark_out_all_users as a function of the onsite table and the daily
      grid. Nothing happens at or before 16:00, when no record is active
      today, or when the transaction fails (it is rolled back); otherwise
      the sweep commits and the collected writes go to the daily sheet. */
  function AutoMarkOut(staff: seq<StaffRow>, rs: seq<OnsiteRecord>, g: Grid, rows: map<string, Pos>,
                       now: Instant, commitOk: bool): (seq<OnsiteRecord>, Grid)
  {
    if !IsAfterCutoff(now.time) then (rs, g)
    else
      var sel := ActiveOn(rs, now.day);
      if sel == [] || !commitOk then (rs, g)
      else (SweepLedger(staff, rs, now), ApplyWrites(g, SweepWrites(staff, sel, rows, FormatTime(now.time))))
  }

  /** The whole effect of a sweep, record by record and cell by cell: when it
      runs (after 16:00) and commits, exactly the records active today whose
      tag has a Staff name are closed at `now`, and exactly their daily rows
      get "OUT" and the time; otherwise nothing changes. */
  lemma AutoMarkOutEffect(staff: seq<StaffRow>, rs: seq<OnsiteRecord>, nextId: nat, g: Grid,
                          rows: map<string, Pos>, now: Instant, commitOk: bool)
    requires IdsFresh(rs, nextId)
    ensures var (rs', g') := AutoMarkOut(staff, rs, g, rows, now, commitOk);
      var fires := IsAfterCutoff(now.time) && commitOk;
      && |rs'| == |rs|
      && (forall i :: 0 <= i < |rs| ==>
            rs'[i] == if fires && rs[i].active && rs[i].scan.day == now.day && HasStaffName(staff, rs[i].tag)
                      then Close(rs[i], now) else rs[i])
      && (forall r: Pos, c: Pos :: Cell(g', r, c) ==
            if fires && MarkedOut(staff, rs, rows, now.day, r) && c == 3 then StatusOut
            else if fires && MarkedOut(staff, rs, rows, now.day, r) && c == 4 then FormatTime(now.time)
            else Cell(g, r, c))
  {
    var sel := ActiveOn(rs, now.day);
    var fires := IsAfterCutoff(now.time) && commitOk;
    if fires {
      forall r: Pos
        ensures Swept(staff, sel, rows, r) <==> MarkedOut(staff, rs, rows, now.day, r)
      {
        if MarkedOut(staff, rs, rows, now.day, r) {
          var x :| x in rs && x.active && x.scan.day == now.day && RowOf(staff, rows, x.tag) == Some(r);
          assert x in sel;
        }
      }
      if sel == [] {
        assert forall i :: 0 <= i < |rs| ==> rs[i] in rs;
      } else {
        SweepCloses(staff, rs, nextId, now);
        forall r: Pos, c: Pos
          ensures Cell(ApplyWrites(g, SweepWrites(staff, sel, rows, FormatTime(now.time))), r, c) ==
            if MarkedOut(staff, rs, rows, now.day, r) && c == 3 then StatusOut
            else if MarkedOut(staff, rs, rows, now.day, r) && c == 4 then FormatTime(now.time)
            else Cell(g, r, c)
        {
          SweepDailyCell(g, staff, sel, rows, FormatTime(now.time), r, c);
        }
      }
    }
  }

  /** A sweep keeps the ledger coherent with fresh ids, and once it has run
      and committed no tag with a Staff name is on site for the day. */
  lemma AutoMarkOutSignsOut(staff: seq<StaffRow>, rs: seq<OnsiteRecord>, nextId: nat, g: Grid,
                            rows: map<string, Pos>, now: Instant, commitOk: bool, tag: string)
    requires Coherent(rs) && IdsFresh(rs, nextId)
    ensures var rs' := AutoMarkOut(staff, rs, g, rows, now, commitOk).0;
      && Coherent(rs') && IdsFresh(rs', nextId)
      && (IsAfterCutoff(now.time) && commitOk && HasStaffName(staff, tag) ==> !OnSite(rs', tag, now.day))
  {
    var sel := ActiveOn(rs, now.day);
    if IsAfterCutoff(now.time) && commitOk {
      if sel == [] {
        if HasStaffName(staff, tag) {
          SweepSignsEveryoneOut(staff, rs, nextId, now, tag);
          SweepCloses(staff, rs, nextId, now);
          assert forall i :: 0 <= i < |rs| ==> rs[i] in rs;
          assert SweepLedger(staff, rs, now) == rs;
        }
      } else if HasStaffName(staff, tag) {
        SweepSignsEveryoneOut(staff, rs, nextId, now, tag);
      } else {
        var ids := SweepIds(staff, sel);
        CloseKeepsCoherent(rs, (set x | x in ids), nextId, now);
      }
    }
  }

  /** The loop that walks the selected records, collecting the ids to close
      and the daily sheet writes. */
  method PlanSweep(staff: seq<StaffRow>, sel: seq<OnsiteRecord>, rows: map<string, Pos>, timeText: string)
    returns (ids: seq<nat>, writes: seq<CellWrite>)
    ensures ids == SweepIds(staff, sel)
    ensures writes == SweepWrites(staff, sel, rows, timeText)
  {
    ids, writes := [], [];
    var i := 0;
    while i < |sel|
      invariant 0 <= i <= |sel|
      invariant ids + SweepIds(staff, sel[i..]) == SweepIds(staff, sel)
      invariant writes + SweepWrites(staff, sel[i..], rows, timeText) == SweepWrites(staff, sel, rows, timeText)
    {
      var x := sel[i];
      ghost var ids0, writes0 := ids, writes;
      var name := StaffName(staff, x.tag);
      if name.Some? && name.value != "" {
        ids := ids + [x.id];
        if name.value in rows {
          writes := writes + DailyWrites(rows[name.value], StatusOut, timeText);
        }
      }
      SweepStep(staff, sel, rows, timeText, i);
      ghost var h := if HasStaffName(staff, x.tag) then [x.id] else [];
      ghost var w := RecordWrites(staff, rows, timeText, x);
      assert ids == ids0 + h;
      assert writes == writes0 + w;
      ConcatAssoc(ids0, h, SweepIds(staff, sel[i + 1..]));
      ConcatAssoc(writes0, w, SweepWrites(staff, sel[i + 1..], rows, timeText));
      i := i + 1;
    }
    assert sel[i..] == [];
  }

  lemma ConcatAssoc<T>(a: seq<T>, b: seq<T>, c: seq<T>)
    ensures (a + b) + c == a + (b + c)
  {
  }

  /** One step of the loop: the remaining selection splits into its first
      record and the rest. */
  lemma SweepStep(staff: seq<StaffRow>, sel: seq<OnsiteRecord>, rows: map<string, Pos>, timeText: string, i: nat)
    requires i < |sel|
    ensures SweepIds(staff, sel[i..]) ==
      (if HasStaffName(staff, sel[i].tag) then [sel[i].id] else []) + SweepIds(staff, sel[i + 1..])
    ensures SweepWrites(staff, sel[i..], rows, timeText) ==
      RecordWrites(staff, rows, timeText, sel[i]) + SweepWrites(staff, sel[i + 1..], rows, timeText)
  {
    assert sel[i..][1..] == sel[i + 1..];
  }

  /** auto_mark_out_all_users. */
  method AutoMarkOutAllUsers(db: Database, daily: Worksheet, rows: map<string, Pos>, now: Instant, commitOk: bool)
    requires db.Valid()
    modifies db, daily
    ensures db.Valid()
    ensures (db.onsite, daily.cells) == AutoMarkOut(db.staff, old(db.onsite), old(daily.cells), rows, now, commitOk)
    ensures db.sign == old(db.sign) && db.nextId == old(db.nextId)
  {
    if !IsAfterCutoff(now.time) {
      return;
    }
    var sel := ActiveOn(db.onsite, now.day);
    if sel == [] {
      return;
    }
    var ids, writes := PlanSweep(db.staff, sel, rows, FormatTime(now.time));
    db.CommitSweep(ids, now, commitOk);
    if commitOk && writes != [] {
      daily.BatchUpdate(writes);
    }
  }
}
