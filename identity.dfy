/** Identity resolution: from a scanned tag to the name the scan is recorded
    under, through the Sign (assignment) table, registering a Staff member in
    Sign the first time their tag is seen. */
module Identity {
  import opened Text
  import opened Ledger

  /** The resolved name (None when the scan is rejected) and the Sign table
      afterwards. */
  datatype Resolution = Resolution(name: Option<string>, sign: map<string, string>)

  /** get_assigned_name_and_tag. `insertOk` says whether the INSERT into Sign
      and its commit succeed. */
  function Resolve(staff: seq<StaffRow>, sign: map<string, string>, tag: string, insertOk: bool): Resolution
  {
    if tag in sign then
      // found in Sign: accepted only while the tag is still in Staff
      if StaffName(staff, tag).Some? then Resolution(Some(sign[tag]), sign)
      else Resolution(None, sign)
    else
      match StaffName(staff, tag)
      case Some(n) => if insertOk then Resolution(Some(n), sign[tag := n]) else Resolution(None, sign)
      case None => Resolution(None, sign)
  }

  /** Every assignment's tag is a Staff tag. */
  predicate SignInStaff(staff: seq<StaffRow>, sign: map<string, string>)
  {
    forall t :: t in sign ==> StaffName(staff, t).Some?
  }

  /** The four cases: a tag in Sign and Staff yields its Sign name and writes
      nothing; a tag in Sign only, or in neither table, is rejected and writes
      nothing; a tag in Staff only gets exactly one Sign row (tag, Staff name)
      and yields that name, or is rejected with nothing written when the
      insert fails. */
  lemma ResolveCases(staff: seq<StaffRow>, sign: map<string, string>, tag: string, insertOk: bool)
    ensures var r := Resolve(staff, sign, tag, insertOk);
      && (tag in sign && StaffName(staff, tag).Some? ==> r == Resolution(Some(sign[tag]), sign))
      && (tag in sign && StaffName(staff, tag).None? ==> r == Resolution(None, sign))
      && (tag !in sign && StaffName(staff, tag).Some? ==>
            r == if insertOk then Resolution(StaffName(staff, tag), sign[tag := StaffName(staff, tag).value])
                 else Resolution(None, sign))
      && (tag !in sign && StaffName(staff, tag).None? ==> r == Resolution(None, sign))
  {
  }

  /** Resolution succeeds exactly for Staff tags that are, or can now be,
      assigned; it only ever adds the scanned tag's row to Sign, and keeps
      every assignment pointing at a Staff tag. */
  lemma ResolveFrame(staff: seq<StaffRow>, sign: map<string, string>, tag: string, insertOk: bool)
    ensures var r := Resolve(staff, sign, tag, insertOk);
      && (r.name.Some? <==> StaffName(staff, tag).Some? && (tag in sign || insertOk))
      && r.sign.Keys == sign.Keys + (if r.sign == sign then {} else {tag})
      && (forall t :: t in sign ==> r.sign[t] == sign[t])
      && (SignInStaff(staff, sign) ==> SignInStaff(staff, r.sign))
  {
  }

  /** Once a tag has been resolved, resolving it again returns the same name
      and writes no further Sign row, whatever the insert would do. */
  lemma ResolveAgain(staff: seq<StaffRow>, sign: map<string, string>, tag: string, insertOk: bool, insertOk': bool)
    requires Resolve(staff, sign, tag, insertOk).name.Some?
    ensures var r := Resolve(staff, sign, tag, insertOk);
      Resolve(staff, r.sign, tag, insertOk') == r
  {
  }
}
