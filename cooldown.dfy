/** The per-name cooldown registry (`last_tap_times`): the time of the last
    scan of each name that passed every gate. It lives in the process and
    starts empty on every run. */
module Cooldown {
  import opened Clock

  /** check_cooldown: a scan is refused when the name has a recorded tap less
      than 18 seconds before `now`. */
  predicate Allows(lastTap: map<string, Instant>, name: string, now: Instant)
  {
    name !in lastTap || Elapsed(lastTap[name], now) >= Cooldown
  }

  /** A tap exactly 18 seconds after the recorded one is accepted; one a
      microsecond earlier is refused; a name never recorded is accepted. */
  lemma CooldownBoundary(lastTap: map<string, Instant>, name: string, last: Instant, now: Instant)
    requires lastTap == map[name := last]
    ensures Elapsed(last, now) == Cooldown ==> Allows(lastTap, name, now)
    ensures Elapsed(last, now) == Cooldown - 1 ==> !Allows(lastTap, name, now)
    ensures forall other :: other != name ==> Allows(lastTap, other, now)
  {
  }

  /** Each run of the program starts with an empty registry and handles a
      single tag, so the one check it makes always passes, whatever the
      name and the time. */
  lemma FreshRunAllows(name: string, now: Instant)
    ensures Allows(map[], name, now)
  {
  }

  class Registry {
    var lastTap: map<string, Instant>

    constructor ()
      ensures lastTap == map[]
    {
      lastTap := map[];
    }

    /** check_cooldown. */
    function CheckCooldown(name: string, now: Instant): bool
      reads this
    {
      Allows(lastTap, name, now)
    }

    /** `last_tap_times[name] = now`. */
    method RecordTap(name: string, now: Instant)
      modifies this
      ensures lastTap == old(lastTap)[name := now]
    {
      lastTap := lastTap[name := now];
    }
  }
}
