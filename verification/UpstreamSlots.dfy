/** The semaphore that bounds proxied upstream requests, and the protocol of any
    number of requests that take a slot, raise and lower the in-flight gauge and
    give the slot back, interleaved at single operations. */
module UpstreamSlots {

  // ---------------------------------------------------------------- the buffered channel

  /** A non-blocking send succeeds when there is room and the request is still wanted. */
  predicate Admits(occupancy: nat, size: nat, cancelled: bool) {
    !cancelled && occupancy < size
  }

  /** A non-blocking receive; on an empty channel it does nothing. */
  function AfterRelease(occupancy: nat): nat {
    if occupancy > 0 then occupancy - 1 else 0
  }

  class Semaphore {
    const size: nat
    var occupancy: nat

    ghost predicate Valid()
      reads this
    {
      occupancy <= size
    }

    constructor (size: nat)
      ensures Valid() && this.size == size && occupancy == 0
    {
      this.size, occupancy := size, 0;
    }
  }

  method NewSemaphore(size: int) returns (s: Semaphore?)
    ensures s == null <==> size <= 0
    ensures s != null ==> fresh(s) && s.Valid() && s.size == size && s.occupancy == 0
  {
    if size <= 0 {
      return null;
    }
    s := new Semaphore(size);
  }

  method Acquire(s: Semaphore?, cancelled: bool) returns (ok: bool)
    requires s != null ==> s.Valid()
    modifies if s == null then {} else {s}
    ensures s == null ==> ok
    ensures s != null ==>
              && s.Valid()
              && (ok <==> !cancelled && old(s.occupancy) < s.size)
              && s.occupancy == old(s.occupancy) + (if ok then 1 else 0)
  {
    if s == null {
      return true;
    }
    if cancelled {
      return false;
    }
    if s.occupancy < s.size {
      s.occupancy := s.occupancy + 1;
      return true;
    }
    return false;
  }

  method Release(s: Semaphore?)
    requires s != null ==> s.Valid()
    modifies if s == null then {} else {s}
    ensures s != null ==> s.Valid() && s.occupancy == if old(s.occupancy) > 0 then old(s.occupancy) - 1 else 0
  {
    if s != null && s.occupancy > 0 {
      s.occupancy := s.occupancy - 1;
    }
  }

  // ---------------------------------------------------------------- the protocol

  /** A request that ServeProxy handles. Deferred calls run in reverse order, so the
      gauge goes down before the slot is given back, also when the proxy panics. */
  datatype Phase = Arrived | Slotted | InFlight | Leaving | Refused | Gone

  datatype State = State(occupancy: nat, gauge: int, phases: map<nat, Phase>, returned: multiset<nat>)

  datatype Step =
    | Arrive(pid: nat)
    | TrySlot(pid: nat, cancelled: bool)
    | GaugeUp(pid: nat)
    | GaugeDown(pid: nat)
    | GiveBack(pid: nat)

  const Initial: State := State(0, 0, map[], multiset{})

  predicate In(s: State, pid: nat, phase: Phase) {
    pid in s.phases && s.phases[pid] == phase
  }

  /** `metered` says whether the handler has a metrics collector. */
  predicate Enabled(metered: bool, s: State, step: Step) {
    match step
    case Arrive(pid) => pid !in s.phases
    case TrySlot(pid, _) => In(s, pid, Arrived)
    case GaugeUp(pid) => metered && In(s, pid, Slotted)
    case GaugeDown(pid) => In(s, pid, InFlight)
    case GiveBack(pid) => In(s, pid, Leaving) || (!metered && In(s, pid, Slotted))
  }

  function Next(size: nat, s: State, step: Step): State {
    match step
    case Arrive(pid) => s.(phases := s.phases[pid := Arrived])
    case TrySlot(pid, cancelled) =>
      if Admits(s.occupancy, size, cancelled)
      then s.(occupancy := s.occupancy + 1, phases := s.phases[pid := Slotted])
      else s.(phases := s.phases[pid := Refused])
    case GaugeUp(pid) => s.(gauge := s.gauge + 1, phases := s.phases[pid := InFlight])
    case GaugeDown(pid) => s.(gauge := s.gauge - 1, phases := s.phases[pid := Leaving])
    case GiveBack(pid) =>
      s.(occupancy := AfterRelease(s.occupancy), phases := s.phases[pid := Gone],
         returned := s.returned + multiset{pid})
  }

  predicate Possible(size: nat, metered: bool, steps: seq<Step>) {
    steps != [] ==>
      && Possible(size, metered, steps[..|steps| - 1])
      && Enabled(metered, Reached(size, steps[..|steps| - 1]), steps[|steps| - 1])
  }

  function Reached(size: nat, steps: seq<Step>): State {
    if steps == [] then Initial else Next(size, Reached(size, steps[..|steps| - 1]), steps[|steps| - 1])
  }

  function Holders(s: State): set<nat> {
    set pid | pid in s.phases && (s.phases[pid] == Slotted || s.phases[pid] == InFlight || s.phases[pid] == Leaving)
  }

  function Flying(s: State): set<nat> {
    set pid | pid in s.phases && s.phases[pid] == InFlight
  }

  predicate Counted(size: nat, s: State) {
    s.occupancy == |Holders(s)| <= size && s.gauge == |Flying(s)|
  }

  ghost predicate ReturnedOnce(s: State) {
    forall pid :: s.returned[pid] == if In(s, pid, Gone) then 1 else 0
  }

  ghost predicate Sound(size: nat, s: State) {
    Counted(size, s) && ReturnedOnce(s)
  }

  predicate Holds(p: Phase) {
    p == Slotted || p == InFlight || p == Leaving
  }

  lemma SetsChange(before: State, after: State, pid: nat, p: Phase)
    requires after.phases == before.phases[pid := p]
    ensures Holders(after) == if Holds(p) then Holders(before) + {pid} else Holders(before) - {pid}
    ensures Flying(after) == if p == InFlight then Flying(before) + {pid} else Flying(before) - {pid}
  {
  }

  lemma {:induction false} Sizes(ids: set<nat>, id: nat)
    ensures |ids + {id}| == |ids| + (if id in ids then 0 else 1)
    ensures |ids - {id}| == |ids| - (if id in ids then 1 else 0)
  {
    if id in ids {
      assert ids + {id} == ids;
    } else {
      assert ids - {id} == ids;
    }
  }

  lemma {:induction false} CountsChange(before: State, after: State, pid: nat, p: Phase)
    requires after.phases == before.phases[pid := p]
    ensures var held := pid in Holders(before);
            |Holders(after)| == |Holders(before)|
                                + (if Holds(p) && !held then 1 else if !Holds(p) && held then -1 else 0)
    ensures var flew := pid in Flying(before);
            |Flying(after)| == |Flying(before)|
                               + (if p == InFlight && !flew then 1 else if p != InFlight && flew then -1 else 0)
  {
    hide Holders, Flying;
    SetsChange(before, after, pid, p);
    Sizes(Holders(before), pid);
    Sizes(Flying(before), pid);
  }

  function PhaseAfter(size: nat, s: State, step: Step): Phase {
    match step
    case Arrive(_) => Arrived
    case TrySlot(_, cancelled) => if Admits(s.occupancy, size, cancelled) then Slotted else Refused
    case GaugeUp(_) => InFlight
    case GaugeDown(_) => Leaving
    case GiveBack(_) => Gone
  }

  lemma Membership(s: State, pid: nat)
    ensures pid in Holders(s) <==> In(s, pid, Slotted) || In(s, pid, InFlight) || In(s, pid, Leaving)
    ensures pid in Flying(s) <==> In(s, pid, InFlight)
    ensures pid in s.phases ==> In(s, pid, s.phases[pid])
  {
  }

  lemma {:induction false} NextIsCounted(size: nat, metered: bool, s: State, step: Step)
    requires Counted(size, s) && Enabled(metered, s, step)
    ensures Counted(size, Next(size, s, step))
    ensures step.GiveBack? ==> s.occupancy > 0
  {
    hide Holders, Flying;
    Membership(s, step.pid);
    CountsChange(s, Next(size, s, step), step.pid, PhaseAfter(size, s, step));
  }

  lemma NextReturnsOnce(size: nat, metered: bool, s: State, step: Step)
    requires ReturnedOnce(s) && Enabled(metered, s, step)
    ensures ReturnedOnce(Next(size, s, step))
  {
  }

  lemma {:induction false} NextIsSound(size: nat, metered: bool, s: State, step: Step)
    requires Sound(size, s) && Enabled(metered, s, step)
    ensures Sound(size, Next(size, s, step))
    ensures step.GiveBack? ==> s.occupancy > 0
  {
    hide Counted, ReturnedOnce, Next;
    NextIsCounted(size, metered, s, step);
    NextReturnsOnce(size, metered, s, step);
  }

  /** In every run the gauge counts some of the slot holders, the channel holds exactly
      one token per holder and never more than its size. */
  lemma {:induction false} SlotsOverRuns(size: nat, metered: bool, steps: seq<Step>)
    requires Possible(size, metered, steps)
    ensures Sound(size, Reached(size, steps))
    ensures var s := Reached(size, steps); 0 <= s.gauge <= |Holders(s)| == s.occupancy <= size
  {
    hide Next, Enabled;
    if steps == [] {
      assert Holders(Initial) == {} && Flying(Initial) == {};
    } else {
      var n := |steps| - 1;
      SlotsOverRuns(size, metered, steps[..n]);
      NextIsSound(size, metered, Reached(size, steps[..n]), steps[n]);
    }
    var s := Reached(size, steps);
    assert Holders(s) == Flying(s) + (Holders(s) - Flying(s));
  }

  /** A slot is given back exactly once by each request that is through, and never onto an
      empty channel; once nobody holds one, all are free. */
  lemma {:induction false} EverySlotReturns(size: nat, metered: bool, steps: seq<Step>, step: Step)
    requires Possible(size, metered, steps) && Enabled(metered, Reached(size, steps), step)
    ensures step.GiveBack? ==> Reached(size, steps).occupancy > 0
    ensures var s := Next(size, Reached(size, steps), step);
            && ReturnedOnce(s)
            && ((forall pid :: pid in s.phases ==> s.phases[pid] == Gone || s.phases[pid] == Refused)
                ==> s.occupancy == 0 && s.gauge == 0)
  {
    SlotsOverRuns(size, metered, steps);
    NextIsSound(size, metered, Reached(size, steps), step);
    var s := Next(size, Reached(size, steps), step);
    if forall pid :: pid in s.phases ==> s.phases[pid] == Gone || s.phases[pid] == Refused {
      assert Holders(s) == {} && Flying(s) == {};
    }
  }

  /** A request is turned away only when it was cancelled or all slots are held. */
  lemma {:induction false} RefusedOnlyWhenFull(size: nat, metered: bool, steps: seq<Step>, pid: nat, cancelled: bool)
    requires Possible(size, metered, steps) && Enabled(metered, Reached(size, steps), TrySlot(pid, cancelled))
    ensures In(Next(size, Reached(size, steps), TrySlot(pid, cancelled)), pid, Refused)
       <==> cancelled || |Holders(Reached(size, steps))| == size
  {
    SlotsOverRuns(size, metered, steps);
  }
}
