/** on_tag_scan: one RFID scan, from the tag to the database, the cooldown
    registry and the two spreadsheets. */
module Scanner {
  import opened Text
  import opened Clock
  import opened Sheet
  import opened Ledger
  import opened Identity
  import opened Store
  import opened Cooldown
  import opened Projection
  import opened Roster

  /** How a scan ends. on_tag_scan returns True exactly for the last two. */
  datatype Outcome = NotIdentified | CoolingDown | OutsideWindow | WriteFailed | SignedIn | SignedOut
  {
    predicate Accepted()
    {
      this == SignedIn || this == SignedOut
    }
  }

  /** Everything a scan can change: the Sign table, the onsite table and its
      next id, the cooldown registry and the two sheets. */
  datatype Stores = Stores(
    sign: map<string, string>,
    onsite: seq<OnsiteRecord>,
    nextId: nat,
    lastTap: map<string, Instant>,
    month: Grid,
    daily: Grid)

  /** The daily Status text of a scan. */
  function StatusText(signedIn: bool): string
  {
    if signedIn then StatusIn else StatusOut
  }

  /** on_tag_scan as a function of the stores. `insertOk` and `writeOk` say
      whether the Sign insert and the onsite write commit. The gates come in
      the source's order: identity (a missing or empty name is refused),
      cooldown, time window; the tap is recorded before the database write,
      and the sheets are written only after it commits. */
  function Scan(staff: seq<StaffRow>, st: Stores, session: Session, tag: string, now: Instant,
                insertOk: bool, writeOk: bool): (Stores, Outcome)
  {
    var res := Resolve(staff, st.sign, tag, insertOk);
    var st1 := st.(sign := res.sign);
    if res.name.None? || res.name.value == "" then (st1, NotIdentified)
    else
      var name := res.name.value;
      if !Allows(st.lastTap, name, now) then (st1, CoolingDown)
      else if !IsSigninAllowed(now.time) then (st1, OutsideWindow)
      else
        Commit(st1.(lastTap := st.lastTap[name := now]), session, tag, name, now, writeOk)
  }

  /** The part of a scan after the gates: the database write for the flip,
      then, when it succeeded, the two sheet updates. */
  function Commit(st: Stores, session: Session, tag: string, name: string, now: Instant, writeOk: bool): (Stores, Outcome)
  {
    var step := ScanLedger(st.onsite, st.nextId, tag, now);
    var signedIn := step.1;
    if !writeOk then (st, WriteFailed)
    else
      (st.(onsite := step.0,
           nextId := NextIdAfter(st.nextId, signedIn),
           month := MonthlyAfterScan(st.month, name, session.monthRows, session.todayCol, now.time, signedIn),
           daily := DailyAfterScan(st.daily, name, StatusText(signedIn), FormatTime(now.time), session.dailyRows)),
       if signedIn then SignedIn else SignedOut)
  }

  /** The name a scan is processed under, when identification succeeds. */
  predicate Identified(staff: seq<StaffRow>, sign: map<string, string>, tag: string, insertOk: bool)
  {
    var r := Resolve(staff, sign, tag, insertOk);
    r.name.Some? && r.name.value != ""
  }

  /** A scan that is refused before the database write (unknown tag, empty
      name, cooldown, outside 06:00-16:00) changes nothing but the Sign
      table, and it does not restart the cooldown. */
  lemma ScanRefused(staff: seq<StaffRow>, st: Stores, session: Session, tag: string, now: Instant, insertOk: bool, writeOk: bool)
    ensures var res := Resolve(staff, st.sign, tag, insertOk);
      var (st', out) := Scan(staff, st, session, tag, now, insertOk, writeOk);
      && (out == NotIdentified <==> !Identified(staff, st.sign, tag, insertOk))
      && (out == CoolingDown <==> Identified(staff, st.sign, tag, insertOk) && !Allows(st.lastTap, res.name.value, now))
      && (out == OutsideWindow <==>
            Identified(staff, st.sign, tag, insertOk) && Allows(st.lastTap, res.name.value, now) && !IsSigninAllowed(now.time))
      && (out in {NotIdentified, CoolingDown, OutsideWindow} ==> st' == st.(sign := res.sign))
  {
  }

  /** A scan that passes the gates records the tap even when the database
      write fails; a failed write leaves the onsite table, the id counter and
      both sheets exactly as they were. */
  lemma ScanWriteFails(staff: seq<StaffRow>, st: Stores, session: Session, tag: string, now: Instant, insertOk: bool)
    requires Identified(staff, st.sign, tag, insertOk)
    ensures var name := Resolve(staff, st.sign, tag, insertOk).name.value;
      var (st', out) := Scan(staff, st, session, tag, now, insertOk, false);
      Allows(st.lastTap, name, now) && IsSigninAllowed(now.time) ==>
        out == WriteFailed && st'.lastTap == st.lastTap[name := now] &&
        st'.onsite == st.onsite && st'.nextId == st.nextId && st'.month == st.month && st'.daily == st.daily
  {
  }

  /** The invariant the database keeps across scans: coherent onsite rows
      with fresh ids, and Sign rows only for Staff tags. */
  ghost predicate Inv(staff: seq<StaffRow>, st: Stores)
  {
    Coherent(st.onsite) && IdsFresh(st.onsite, st.nextId) && SignInStaff(staff, st.sign)
  }

  /** An accepted scan flips the tag's presence for the day: it is a sign-in
      exactly when the tag was not on site, the database invariant holds
      afterwards, the monthly cell is set only on a sign-in (to "Present" or
      "Present(LATE)"), and the daily row gets the new status and the time. */
  lemma ScanAccepted(staff: seq<StaffRow>, st: Stores, session: Session, tag: string, now: Instant, insertOk: bool)
    requires Inv(staff, st) && ClockNotBehind(st.onsite, now)
    requires Identified(staff, st.sign, tag, insertOk)
    requires Allows(st.lastTap, Resolve(staff, st.sign, tag, insertOk).name.value, now) && IsSigninAllowed(now.time)
    ensures var name := Resolve(staff, st.sign, tag, insertOk).name.value;
      var (st', out) := Scan(staff, st, session, tag, now, insertOk, true);
      var signedIn := !OnSite(st.onsite, tag, now.day);
      && out == (if signedIn then SignedIn else SignedOut)
      && OnSite(st'.onsite, tag, now.day) == signedIn
      && Inv(staff, st')
      && st'.lastTap == st.lastTap[name := now]
      && st'.month == MonthlyAfterScan(st.month, name, session.monthRows, session.todayCol, now.time, signedIn)
      && st'.daily == DailyAfterScan(st.daily, name, StatusText(signedIn), FormatTime(now.time), session.dailyRows)
  {
    ScanFlips(st.onsite, st.nextId, tag, now);
    ResolveFrame(staff, st.sign, tag, insertOk);
  }

  /** Every scan, accepted or not, keeps the database invariant. */
  lemma ScanKeepsInv(staff: seq<StaffRow>, st: Stores, session: Session, tag: string, now: Instant, insertOk: bool, writeOk: bool)
    requires Inv(staff, st) && ClockNotBehind(st.onsite, now)
    ensures Inv(staff, Scan(staff, st, session, tag, now, insertOk, writeOk).0)
  {
    ResolveFrame(staff, st.sign, tag, insertOk);
    if Identified(staff, st.sign, tag, insertOk) && writeOk {
      var name := Resolve(staff, st.sign, tag, insertOk).name.value;
      if Allows(st.lastTap, name, now) && IsSigninAllowed(now.time) {
        ScanAccepted(staff, st, session, tag, now, insertOk);
      }
    }
  }

  /** The stores as the objects hold them. */
  function Snapshot(db: Database, reg: Registry, month: Worksheet, daily: Worksheet): Stores
    reads db, reg, month, daily
  {
    Stores(db.sign, db.onsite, db.nextId, reg.lastTap, month.cells, daily.cells)
  }

  /** on_tag_scan. */
  method OnTagScan(db: Database, reg: Registry, month: Worksheet, daily: Worksheet, session: Session,
                   tag: string, now: Instant, insertOk: bool, writeOk: bool) returns (outcome: Outcome)
    requires db.Valid() && month != daily
    modifies db, reg, month, daily
    ensures db.Valid()
    ensures (Snapshot(db, reg, month, daily), outcome) ==
      Scan(db.staff, old(Snapshot(db, reg, month, daily)), session, tag, now, insertOk, writeOk)
  {
    var name := db.GetAssignedName(tag, insertOk);
    if name.None? || name.value == "" {
      return NotIdentified;
    }
    var user := name.value;
    if !reg.CheckCooldown(user, now) {
      return CoolingDown;
    }
    if !IsSigninAllowed(now.time) {
      return OutsideWindow;
    }
    reg.RecordTap(user, now);
    outcome := CommitScan(db, reg, month, daily, session, tag, user, now, writeOk);
  }

  /** The database write and the sheet updates of an accepted scan. */
  method CommitScan(db: Database, reg: Registry, month: Worksheet, daily: Worksheet, session: Session,
                    tag: string, user: string, now: Instant, writeOk: bool) returns (outcome: Outcome)
    requires db.Valid() && month != daily
    modifies db, month, daily
    ensures db.Valid()
    ensures (Snapshot(db, reg, month, daily), outcome) ==
      Commit(old(Snapshot(db, reg, month, daily)), session, tag, user, now, writeOk)
  {
    ghost var st0 := Snapshot(db, reg, month, daily);
    ghost var step := ScanLedger(db.onsite, db.nextId, tag, now);
    var status := db.GetCurrentOnsiteStatus(tag, now.day);
    var success: bool;
    var signedIn: bool;
    if status.Some? && status.value.0 {
      success := db.UpdateOnsiteRecord(status.value.1, now, writeOk);
      signedIn := false;
    } else {
      success := db.AddOnsiteRecord(tag, now, writeOk);
      signedIn := true;
    }
    assert signedIn == step.1;
    if !success {
      assert Snapshot(db, reg, month, daily) == st0;
      return WriteFailed;
    }
    assert db.onsite == step.0;
    UpdateMonthlySheetStatus(month, user, session.monthRows, session.todayCol, now.time, signedIn);
    var _ := UpdateDailySheetRow(daily, user, StatusText(signedIn), FormatTime(now.time), session.dailyRows);
    outcome := if signedIn then SignedIn else SignedOut;
  }
}
