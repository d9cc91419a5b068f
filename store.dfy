/** The database as the scan processor and the sweep use it, with the Staff,
    Sign and onsite tables held in memory. Every statement that writes takes
    a flag saying whether the statement and its commit succeed; a failed
    write is rolled back and leaves the tables as they were. */
module Store {
  import opened Text
  import opened Clock
  import opened Ledger
  import opened Identity

  class Database {
    const staff: seq<StaffRow>
    var sign: map<string, string>
    var onsite: seq<OnsiteRecord>
    var nextId: nat

    ghost predicate Valid()
      reads this
    {
      IdsFresh(onsite, nextId)
    }

    constructor (staff: seq<StaffRow>, sign: map<string, string>, onsite: seq<OnsiteRecord>, nextId: nat)
      requires IdsFresh(onsite, nextId)
      ensures Valid()
      ensures this.staff == staff && this.sign == sign && this.onsite == onsite && this.nextId == nextId
    {
      this.staff := staff;
      this.sign := sign;
      this.onsite := onsite;
      this.nextId := nextId;
    }

    /** get_assigned_name_and_tag. */
    method GetAssignedName(tag: string, insertOk: bool) returns (name: Option<string>)
      requires Valid()
      modifies this
      ensures Valid()
      ensures Resolution(name, sign) == Resolve(staff, old(sign), tag, insertOk)
      ensures onsite == old(onsite) && nextId == old(nextId)
    {
      if tag in sign {
        var signName := sign[tag];
        if GetStaffNameByTagId(tag).None? {
          return None;  // in Sign but no longer in Staff
        }
        return Some(signName);
      }
      var staffName := GetStaffNameByTagId(tag);
      if staffName.None? {
        return None;
      }
      if !insertOk {
        return None;  // INSERT INTO sign failed and was rolled back
      }
      sign := sign[tag := staffName.value];
      name := staffName;
    }

    /** get_staff_name_by_tag_id. */
    function GetStaffNameByTagId(tag: string): Option<string>
    {
      StaffName(staff, tag)
    }

    /** get_current_onsite_status. */
    function GetCurrentOnsiteStatus(tag: string, day: int): Option<(bool, nat)>
      reads this
    {
      CurrentStatus(onsite, tag, day)
    }

    /** add_onsite_record_to_db: insert an active record with no sign-out time;
        returns whether the insert committed. */
    method AddOnsiteRecord(tag: string, now: Instant, writeOk: bool) returns (success: bool)
      requires Valid()
      modifies this
      ensures Valid() && success == writeOk
      ensures onsite == if writeOk then Opened(old(onsite), old(nextId), tag, now) else old(onsite)
      ensures nextId == NextIdAfter(old(nextId), writeOk)
      ensures sign == old(sign)
    {
      if !writeOk {
        return false;
      }
      onsite := onsite + [OnsiteRecord(nextId, tag, now, true, None)];
      nextId := nextId + 1;
      success := true;
    }

    /** update_onsite_record_in_db: set Active = 0 and the sign-out time of the
        record with the given id; returns whether the update committed. */
    method UpdateOnsiteRecord(id: nat, now: Instant, writeOk: bool) returns (success: bool)
      requires Valid()
      modifies this
      ensures Valid() && success == writeOk
      ensures onsite == if writeOk then CloseIds(old(onsite), {id}, now) else old(onsite)
      ensures nextId == old(nextId) && sign == old(sign)
    {
      if !writeOk {
        return false;
      }
      onsite := CloseIds(onsite, {id}, now);
      success := true;
    }

    /** The sweep's transaction: every staged UPDATE commits together, or the
        rollback leaves the table untouched. */
    method CommitSweep(ids: seq<nat>, now: Instant, commitOk: bool)
      requires Valid()
      modifies this
      ensures Valid()
      ensures onsite == if commitOk then CloseIds(old(onsite), (set x | x in ids), now) else old(onsite)
      ensures nextId == old(nextId) && sign == old(sign)
    {
      if commitOk {
        onsite := CloseIds(onsite, (set x | x in ids), now);
      }
    }
  }
}
