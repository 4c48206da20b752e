/** `setTimeout` / `clearTimeout` made explicit: the live timers by handle,
    each with the delay it was armed with. The passage of time is an event
    the caller feeds in (a timer firing), so every behaviour is deterministic. */
module Timers {

  datatype Scheduler = Scheduler(live: map<nat, int>, next: nat)

  /** No timers armed yet. Browsers hand out positive handles, so a stored
      handle is always truthy. */
  const Idle := Scheduler(map[], 1)

  /** Every live handle was issued by this scheduler, and handles are positive. */
  ghost predicate Valid(s: Scheduler)
  {
    1 <= s.next && forall h :: h in s.live ==> 1 <= h < s.next
  }

  datatype Armed = Armed(scheduler: Scheduler, handle: nat)

  /** `setTimeout(callback, delay)`: arms a timer under a fresh handle. */
  function SetTimeout(s: Scheduler, delay: int): (r: Armed)
    ensures Valid(s) ==> Valid(r.scheduler) && r.handle !in s.live && r.handle >= 1
    ensures r.scheduler.live == s.live[r.handle := delay]
  {
    Armed(Scheduler(s.live[s.next := delay], s.next + 1), s.next)
  }

  /** `clearTimeout(handle)`: cancels that timer only; an unknown or already
      fired handle is ignored. */
  function ClearTimeout(s: Scheduler, h: nat): (r: Scheduler)
    ensures Valid(s) ==> Valid(r)
    ensures h !in r.live
    ensures forall g :: g != h ==> (g in r.live <==> g in s.live)
    ensures forall g :: g in r.live ==> r.live[g] == s.live[g]
  {
    Scheduler(s.live - {h}, s.next)
  }

  /** Timer `h` elapses: it leaves the live set; `fired` says whether it was
      still armed, i.e. whether its callback runs. */
  datatype Elapsed = Elapsed(scheduler: Scheduler, fired: bool)

  function Elapse(s: Scheduler, h: nat): (r: Elapsed)
    ensures r.fired <==> h in s.live
    ensures r.scheduler == ClearTimeout(s, h)
  {
    Elapsed(ClearTimeout(s, h), h in s.live)
  }
}
