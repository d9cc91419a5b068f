/** The relational side of the attendance system: the Staff table, and the
    `onsite` ledger of sign-in records, with the queries and updates the
    scan processor and the end-of-day sweep run against it. */
module Ledger {
  import opened Text
  import opened Clock

  /** A row of Staff (owned by an external provisioning process). */
  datatype StaffRow = StaffRow(tag: string, name: string, department: string)

  /** A row of `onsite`: created by a sign-in (active, no sign-out time),
      closed in place by the matching sign-out. */
  datatype OnsiteRecord = OnsiteRecord(id: nat, tag: string, scan: Instant, active: bool, signOut: Option<Instant>)

  /** `SELECT Name FROM Staff WHERE tag_id = %s`, first row (tag_id is unique
      in Staff). */
  function StaffName(staff: seq<StaffRow>, tag: string): (r: Option<string>)
    ensures r.None? <==> forall i :: 0 <= i < |staff| ==> staff[i].tag != tag
    ensures r.Some? ==> exists i :: 0 <= i < |staff| && staff[i].tag == tag && staff[i].name == r.value
  {
    if staff == [] then None
    else if staff[0].tag == tag then Some(staff[0].name)
    else StaffName(staff[1..], tag)
  }

  /** The record lies in `tag`'s window for `day` (`scan_date BETWEEN
      today_start AND today_end`). */
  predicate OnDay(r: OnsiteRecord, tag: string, day: int)
  {
    r.tag == tag && r.scan.day == day
  }

  /** `ORDER BY scan_date DESC LIMIT 1` over the tag's records of the day: the
      position of a record with the greatest scan time; among equal times the
      one inserted last. */
  function LatestToday(rs: seq<OnsiteRecord>, tag: string, day: int): (k: Option<nat>)
    ensures k.None? <==> forall i :: 0 <= i < |rs| ==> !OnDay(rs[i], tag, day)
    ensures k.Some? ==> k.value < |rs| && OnDay(rs[k.value], tag, day)
    ensures k.Some? ==> forall i :: 0 <= i < |rs| && OnDay(rs[i], tag, day) ==>
      rs[i].scan.time <= rs[k.value].scan.time
    ensures k.Some? ==> forall i :: k.value < i < |rs| && OnDay(rs[i], tag, day) ==>
      rs[i].scan.time < rs[k.value].scan.time
  {
    if rs == [] then None
    else
      var n := |rs| - 1;
      var prev := LatestToday(rs[..n], tag, day);
      assert forall i :: 0 <= i < n ==> rs[..n][i] == rs[i];
      if OnDay(rs[n], tag, day) && (prev.None? || rs[prev.value].scan.time <= rs[n].scan.time)
      then Some(n)
      else prev
  }

  /** get_current_onsite_status: (Active, onsite_id) of that record, or None
      when the tag has no record today. */
  function CurrentStatus(rs: seq<OnsiteRecord>, tag: string, day: int): Option<(bool, nat)>
  {
    match LatestToday(rs, tag, day)
    case None => None
    case Some(k) => Some((rs[k].active, rs[k].id))
  }

  /** Every id lies below the auto-increment counter and no two records share
      one. */
  predicate IdsFresh(rs: seq<OnsiteRecord>, nextId: nat)
  {
    && (forall i :: 0 <= i < |rs| ==> rs[i].id < nextId)
    && (forall i, j :: 0 <= i < j < |rs| ==> rs[i].id != rs[j].id)
  }

  /** add_onsite_record_to_db: INSERT (tag_id, now, Active = 1, NULL). */
  function Opened(rs: seq<OnsiteRecord>, id: nat, tag: string, now: Instant): seq<OnsiteRecord>
  {
    rs + [OnsiteRecord(id, tag, now, true, None)]
  }

  function Close(r: OnsiteRecord, now: Instant): OnsiteRecord
  {
    r.(active := false, signOut := Some(now))
  }

  /** `UPDATE onsite SET Active = 0, sign_out_date = now WHERE onsite_id IN ids`. */
  function CloseIds(rs: seq<OnsiteRecord>, ids: set<nat>, now: Instant): (rs': seq<OnsiteRecord>)
    ensures |rs'| == |rs|
    ensures forall i :: 0 <= i < |rs| ==> rs'[i] == if rs[i].id in ids then Close(rs[i], now) else rs[i]
  {
    seq(|rs|, i requires 0 <= i < |rs| => if rs[i].id in ids then Close(rs[i], now) else rs[i])
  }

  /** The tag is signed in on `day`: one of its records of that day is active. */
  predicate OnSite(rs: seq<OnsiteRecord>, tag: string, day: int)
  {
    exists i :: 0 <= i < |rs| && OnDay(rs[i], tag, day) && rs[i].active
  }

  /** The ledger's invariant: within one tag's day, records were inserted in
      time order and only the last of them may still be active. In particular
      a tag has at most one active record per day. */
  ghost predicate Coherent(rs: seq<OnsiteRecord>)
  {
    forall i, j :: 0 <= i < j < |rs| && OnDay(rs[i], rs[j].tag, rs[j].scan.day) ==>
      rs[i].scan.time <= rs[j].scan.time && !rs[i].active
  }

  /** The clock has not gone back behind any record of `now`'s day. */
  predicate ClockNotBehind(rs: seq<OnsiteRecord>, now: Instant)
  {
    forall i :: 0 <= i < |rs| && rs[i].scan.day == now.day ==> rs[i].scan.time <= now.time
  }

  lemma AtMostOneActive(rs: seq<OnsiteRecord>, i: nat, j: nat)
    requires Coherent(rs)
    requires i < |rs| && j < |rs| && rs[i].active && rs[j].active
    requires OnDay(rs[i], rs[j].tag, rs[j].scan.day)
    ensures i == j
  {
  }

  /** In a coherent ledger the latest record of the day is active exactly
      when the tag is signed in, so the IN/OUT decision read from the latest
      record agrees with "has an open record today". */
  lemma LatestActiveIffOnSite(rs: seq<OnsiteRecord>, tag: string, day: int)
    requires Coherent(rs)
    ensures OnSite(rs, tag, day) <==> (LatestToday(rs, tag, day).Some? && rs[LatestToday(rs, tag, day).value].active)
  {
    var latest := LatestToday(rs, tag, day);
    if i :| 0 <= i < |rs| && OnDay(rs[i], tag, day) && rs[i].active {
      assert latest.value == i;
    }
  }

  /** The ledger change of an accepted scan whose write succeeds: close the
      latest record if it is active (a sign-out), otherwise insert a new
      active one (a sign-in). The flag is true for a sign-in. */
  function ScanLedger(rs: seq<OnsiteRecord>, nextId: nat, tag: string, now: Instant): (seq<OnsiteRecord>, bool)
  {
    match CurrentStatus(rs, tag, now.day)
    case Some((true, id)) => (CloseIds(rs, {id}, now), false)
    case _ => (Opened(rs, nextId, tag, now), true)
  }

  function NextIdAfter(nextId: nat, signedIn: bool): nat
  {
    if signedIn then nextId + 1 else nextId
  }

  /** One accepted scan flips the tag's presence for the day: it signs in
      exactly when the tag was not on site, afterwards the tag is on site
      exactly when it signed in, and the ledger stays coherent with fresh
      ids. Existing records keep their tag and scan time; an inserted one
      carries `now`. */
  lemma ScanFlips(rs: seq<OnsiteRecord>, nextId: nat, tag: string, now: Instant)
    requires Coherent(rs) && IdsFresh(rs, nextId) && ClockNotBehind(rs, now)
    ensures var rs', signedIn := ScanLedger(rs, nextId, tag, now).0, ScanLedger(rs, nextId, tag, now).1;
      && signedIn == !OnSite(rs, tag, now.day)
      && OnSite(rs', tag, now.day) == signedIn
      && Coherent(rs') && IdsFresh(rs', NextIdAfter(nextId, signedIn))
      && |rs'| >= |rs| && (forall i :: 0 <= i < |rs| ==> rs'[i].scan == rs[i].scan && rs'[i].tag == rs[i].tag)
      && (forall i :: |rs| <= i < |rs'| ==> rs'[i].scan == now)
  {
    LatestActiveIffOnSite(rs, tag, now.day);
    var latest := LatestToday(rs, tag, now.day);
    if latest.Some? && rs[latest.value].active {
      SignOutStep(rs, nextId, tag, now, latest.value);
    } else {
      SignInStep(rs, nextId, tag, now);
    }
  }

  /** The sign-out case: closing the latest record of the day, which is
      active, leaves the tag off site and keeps the ledger coherent. */
  lemma SignOutStep(rs: seq<OnsiteRecord>, nextId: nat, tag: string, now: Instant, k: nat)
    requires Coherent(rs) && IdsFresh(rs, nextId)
    requires LatestToday(rs, tag, now.day) == Some(k) && rs[k].active
    ensures var rs' := CloseIds(rs, {rs[k].id}, now);
      && !OnSite(rs', tag, now.day) && Coherent(rs') && IdsFresh(rs', nextId)
      && (forall i :: 0 <= i < |rs| ==> rs'[i].scan == rs[i].scan && rs'[i].tag == rs[i].tag)
  {
    var rs' := CloseIds(rs, {rs[k].id}, now);
    CloseKeepsCoherent(rs, {rs[k].id}, nextId, now);
    forall i | 0 <= i < |rs| && OnDay(rs[i], tag, now.day) && i != k
      ensures !rs'[i].active
    {
      assert i < k;
      assert !rs[i].active;
    }
  }

  /** Closing records keeps the ledger coherent with fresh ids, and keeps
      every record's id, tag and scan time. */
  lemma CloseKeepsCoherent(rs: seq<OnsiteRecord>, ids: set<nat>, nextId: nat, now: Instant)
    requires Coherent(rs) && IdsFresh(rs, nextId)
    ensures var rs' := CloseIds(rs, ids, now);
      && Coherent(rs') && IdsFresh(rs', nextId)
      && (forall i :: 0 <= i < |rs| ==> rs'[i].scan == rs[i].scan && rs'[i].tag == rs[i].tag)
  {
    var rs' := CloseIds(rs, ids, now);
    assert forall i :: 0 <= i < |rs| ==>
      rs'[i].scan == rs[i].scan && rs'[i].tag == rs[i].tag && rs'[i].id == rs[i].id && (rs'[i].active ==> rs[i].active);
  }

  /** The sign-in case: with no active record of the day, appending an
      active record at `now` puts the tag on site and keeps the ledger
      coherent. */
  lemma SignInStep(rs: seq<OnsiteRecord>, nextId: nat, tag: string, now: Instant)
    requires Coherent(rs) && IdsFresh(rs, nextId) && ClockNotBehind(rs, now)
    requires !OnSite(rs, tag, now.day)
    ensures var rs' := Opened(rs, nextId, tag, now);
      && OnSite(rs', tag, now.day) && Coherent(rs') && IdsFresh(rs', nextId + 1)
  {
    var rs' := Opened(rs, nextId, tag, now);
    assert rs'[|rs|].active && OnDay(rs'[|rs|], tag, now.day);
    forall i, j | 0 <= i < j < |rs'| && OnDay(rs'[i], rs'[j].tag, rs'[j].scan.day)
      ensures rs'[i].scan.time <= rs'[j].scan.time && !rs'[i].active
    {
      if j == |rs| {
        assert rs'[i] == rs[i];
      }
    }
  }

  /** A scan of one tag changes no other tag's or day's presence. */
  lemma ScanLeavesOthers(rs: seq<OnsiteRecord>, nextId: nat, tag: string, now: Instant, t: string, d: int)
    requires Coherent(rs) && IdsFresh(rs, nextId)
    requires t != tag || d != now.day
    ensures OnSite(ScanLedger(rs, nextId, tag, now).0, t, d) == OnSite(rs, t, d)
  {
    var rs' := ScanLedger(rs, nextId, tag, now).0;
    var latest := LatestToday(rs, tag, now.day);
    if latest.Some? && rs[latest.value].active {
      var k := latest.value;
      forall i | 0 <= i < |rs|
        ensures rs'[i] == if i == k then Close(rs[i], now) else rs[i]
      {
      }
      if OnSite(rs, t, d) {
        var i :| 0 <= i < |rs| && OnDay(rs[i], t, d) && rs[i].active;
        assert rs'[i] == rs[i];
      }
    } else {
      if OnSite(rs', t, d) {
        var i :| 0 <= i < |rs'| && OnDay(rs'[i], t, d) && rs'[i].active;
        assert i < |rs| && rs[i] == rs'[i];
      }
      if OnSite(rs, t, d) {
        var i :| 0 <= i < |rs| && OnDay(rs[i], t, d) && rs[i].active;
        assert rs'[i] == rs[i];
      }
    }
  }

  /** The kinds (true = sign-in) of a run of accepted, successful scans of one
      tag at the given readings. */
  function Replay(rs: seq<OnsiteRecord>, nextId: nat, tag: string, times: seq<Instant>): seq<bool>
    decreases |times|
  {
    if times == [] then []
    else
      var step := ScanLedger(rs, nextId, tag, times[0]);
      [step.1] + Replay(step.0, NextIdAfter(nextId, step.1), tag, times[1..])
  }

  /** Readings on one day in non-decreasing order, none behind the ledger. */
  predicate Chronological(rs: seq<OnsiteRecord>, times: seq<Instant>)
  {
    && (forall k :: 0 <= k < |times| ==> times[k].day == times[0].day)
    && (forall k :: 0 < k < |times| ==> times[k - 1].time <= times[k].time)
    && (times != [] ==> ClockNotBehind(rs, times[0]))
  }

  /** `n` booleans alternating, starting with `first`. */
  function Alternating(n: nat, first: bool): (bs: seq<bool>)
    ensures |bs| == n
  {
    if n == 0 then [] else [first] + Alternating(n - 1, !first)
  }

  lemma {:induction false} AlternatingAt(n: nat, first: bool, k: nat)
    requires k < n
    ensures Alternating(n, first)[k] == ((k % 2 == 0) == first)
    decreases n
  {
    if k > 0 {
      AlternatingAt(n - 1, !first, k - 1);
      assert Alternating(n, first)[k] == Alternating(n - 1, !first)[k - 1];
      ParityStep(k);
    }
  }

  /** The run of kinds is the alternating sequence that starts with a
      sign-in exactly when the tag was not on site. */
  lemma {:induction false} ReplayAlternates(rs: seq<OnsiteRecord>, nextId: nat, tag: string, times: seq<Instant>)
    requires Coherent(rs) && IdsFresh(rs, nextId) && Chronological(rs, times)
    ensures times != [] ==>
      Replay(rs, nextId, tag, times) == Alternating(|times|, !OnSite(rs, tag, times[0].day))
    decreases |times|
  {
    if times != [] {
      var now := times[0];
      ScanFlips(rs, nextId, tag, now);
      var step := ScanLedger(rs, nextId, tag, now);
      var rs', id' := step.0, NextIdAfter(nextId, step.1);
      var rest := times[1..];
      var first := !OnSite(rs, tag, now.day);
      assert step.1 == first && OnSite(rs', tag, now.day) == first;
      ChronologicalStep(rs, rs', times);
      ReplayAlternates(rs', id', tag, rest);
      assert Replay(rs, nextId, tag, times) == [first] + Replay(rs', id', tag, rest);
      assert Alternating(|times|, first) == [first] + Alternating(|rest|, !first);
      if rest != [] {
        assert rest[0].day == now.day;
      }
    }
  }

  /** Successive accepted scans of one tag on one day alternate IN, OUT, IN, …
      starting with IN when the tag was not on site (OUT first otherwise). */
  lemma Alternation(rs: seq<OnsiteRecord>, nextId: nat, tag: string, times: seq<Instant>)
    requires Coherent(rs) && IdsFresh(rs, nextId) && Chronological(rs, times)
    ensures var kinds := Replay(rs, nextId, tag, times);
      |kinds| == |times| &&
      forall k :: 0 <= k < |times| ==> kinds[k] == ((k % 2 == 0) != OnSite(rs, tag, times[0].day))
  {
    ReplayAlternates(rs, nextId, tag, times);
    if times != [] {
      var first := !OnSite(rs, tag, times[0].day);
      forall k | 0 <= k < |times|
        ensures Alternating(|times|, first)[k] == ((k % 2 == 0) == first)
      {
        AlternatingAt(|times|, first, k);
      }
    }
  }

  /** Dropping the first scan of a run flips the parity of every later
      position. */
  lemma ParityStep(k: int)
    ensures ((k - 1) % 2 == 0) == (k % 2 != 0)
  {
  }

  /** After the first scan of a chronological run, the rest of the run is
      chronological against the grown ledger. */
  lemma ChronologicalStep(rs: seq<OnsiteRecord>, rs': seq<OnsiteRecord>, times: seq<Instant>)
    requires times != [] && Chronological(rs, times)
    requires |rs'| >= |rs| && forall i :: 0 <= i < |rs| ==> rs'[i].scan == rs[i].scan
    requires forall i :: |rs| <= i < |rs'| ==> rs'[i].scan == times[0]
    ensures Chronological(rs', times[1..])
  {
    var rest := times[1..];
    if rest != [] {
      forall i | 0 <= i < |rs'| && rs'[i].scan.day == rest[0].day
        ensures rs'[i].scan.time <= rest[0].time
      {
        assert times[0].time <= times[1].time;
        if i < |rs| {
          assert rs'[i].scan == rs[i].scan;
        }
      }
    }
  }

  /** The records the sweep selects: active ones scanned on `day`
      (`WHERE Active = 1 AND scan_date BETWEEN …`), in table order. */
  function ActiveOn(rs: seq<OnsiteRecord>, day: int): (sel: seq<OnsiteRecord>)
    ensures forall r :: r in sel <==> r in rs && r.active && r.scan.day == day
  {
    if rs == [] then []
    else (if rs[0].active && rs[0].scan.day == day then [rs[0]] else []) + ActiveOn(rs[1..], day)
  }

  /** The tag has a Staff name the sweep accepts: present and non-empty. */
  predicate HasStaffName(staff: seq<StaffRow>, tag: string)
  {
    StaffName(staff, tag).Some? && StaffName(staff, tag).value != ""
  }

  /** The ids the sweep updates: those of the selected records whose tag
      still has a non-empty Staff name (the others are skipped), in
      selection order. */
  function SweepIds(staff: seq<StaffRow>, sel: seq<OnsiteRecord>): (ids: seq<nat>)
    ensures forall x :: x in ids <==> exists r :: r in sel && r.id == x && HasStaffName(staff, r.tag)
  {
    if sel == [] then []
    else
      (if HasStaffName(staff, sel[0].tag) then [sel[0].id] else []) + SweepIds(staff, sel[1..])
  }

  /** The sweep's ledger change once committed. */
  function SweepLedger(staff: seq<StaffRow>, rs: seq<OnsiteRecord>, now: Instant): seq<OnsiteRecord>
  {
    var ids := SweepIds(staff, ActiveOn(rs, now.day));
    CloseIds(rs, (set x | x in ids), now)
  }

  /** The committed sweep closes exactly the records active on `now`'s day
      whose tag has a non-empty Staff name, with sign-out time `now`; records
      of other tags stay active, and nothing else changes. */
  lemma SweepCloses(staff: seq<StaffRow>, rs: seq<OnsiteRecord>, nextId: nat, now: Instant)
    requires IdsFresh(rs, nextId)
    ensures var rs' := SweepLedger(staff, rs, now);
      && |rs'| == |rs|
      && forall i :: 0 <= i < |rs| ==>
           rs'[i] == (if rs[i].active && rs[i].scan.day == now.day && HasStaffName(staff, rs[i].tag)
                      then Close(rs[i], now) else rs[i])
  {
    var sel := ActiveOn(rs, now.day);
    var ids := SweepIds(staff, sel);
    forall i | 0 <= i < |rs|
      ensures rs[i].id in ids <==> rs[i].active && rs[i].scan.day == now.day && HasStaffName(staff, rs[i].tag)
    {
      if rs[i].id in ids {
        var r :| r in sel && r.id == rs[i].id && HasStaffName(staff, r.tag);
        var j :| 0 <= j < |rs| && rs[j] == r;
        assert j == i;
      }
    }
  }

  /** After a committed sweep no tag with a non-empty Staff name is on site
      on `now`'s day, and the ledger stays coherent. */
  lemma SweepSignsEveryoneOut(staff: seq<StaffRow>, rs: seq<OnsiteRecord>, nextId: nat, now: Instant, tag: string)
    requires Coherent(rs) && IdsFresh(rs, nextId)
    requires HasStaffName(staff, tag)
    ensures !OnSite(SweepLedger(staff, rs, now), tag, now.day)
    ensures Coherent(SweepLedger(staff, rs, now)) && IdsFresh(SweepLedger(staff, rs, now), nextId)
  {
    SweepCloses(staff, rs, nextId, now);
    var ids := SweepIds(staff, ActiveOn(rs, now.day));
    CloseKeepsCoherent(rs, (set x | x in ids), nextId, now);
  }
}
