/**
 * The load balancer object `MyLoadBalancer`: its two fields are updated in
 * place by `getNextTimer`, `Request` and `RegisterInstance`.  Each method is
 * proved equal to its value-level counterpart in `RoundRobin`, and states
 * outright the properties proved about that counterpart.
 */
module LoadBalancer {
  import opened RoundRobin

  class MyLoadBalancer<H(==)> {
    var selectedTimerIdx: nat
    var timerInstances: seq<H>

    /** The abstract value of this balancer. */
    ghost function State(): Balancer<H>
      reads this
    {
      Balancer(selectedTimerIdx, timerInstances)
    }

    /** The zero value `&MyLoadBalancer{}`: no handles, cursor 0. */
    constructor ()
      ensures State() == Fresh() && CursorInRange(State())
    {
      selectedTimerIdx := 0;
      timerInstances := [];
    }

    /** One selection attempt.  `dead` is the set of handles whose request
        channel is closed at the time of the send. */
    method GetNextTimer(dead: set<H>) returns (respChan: Option<Reply<H>>, err: Option<Error>)
      modifies this
      ensures Attempt(State(), respChan, err) == SelectNext(old(State()), dead)
      ensures old(|timerInstances|) == 0 ==>
                err == Some(NoTimers) && respChan == None && State() == old(State())
      ensures old(|timerInstances|) > 0 ==>
                err == None
                && selectedTimerIdx == Advance(old(selectedTimerIdx), old(|timerInstances|))
      ensures respChan.Some? ==>
                timerInstances == old(timerInstances)
                && selectedTimerIdx < |timerInstances|
                && respChan.value.worker == timerInstances[selectedTimerIdx]
                && respChan.value.worker !in dead
      ensures old(|timerInstances|) > 0 && respChan.None? ==>
                selectedTimerIdx < old(|timerInstances|)
                && old(timerInstances)[selectedTimerIdx] in dead
                && timerInstances == RemoveAt(old(timerInstances), selectedTimerIdx)
                && EvictedFrom(old(timerInstances), timerInstances, dead)
      ensures old(CursorInRange(State())) ==> CursorInRange(State())
    {
      ghost var s0 := State();
      if |timerInstances| == 0 {
        return None, Some(NoTimers);
      }
      if selectedTimerIdx >= |timerInstances| - 1 {
        selectedTimerIdx := 0;
      } else {
        selectedTimerIdx := selectedTimerIdx + 1;
      }
      var selected := timerInstances[selectedTimerIdx];
      match Send(selected, dead) {
        case Accepted =>
          respChan, err := Some(Reply(selected)), None;
        case Closed =>
          // the deferred recover: evict by index; the unnamed results stay nil
          timerInstances := RemoveAt(timerInstances, selectedTimerIdx);
          respChan, err := None, None;
      }
      SelectNextEvictsOnlyDead(s0, dead);
      if CursorInRange(s0) {
        SelectNextKeepsCursorInRange(s0, dead);
      }
    }

    /** Retry `GetNextTimer` until a send is accepted or the pool is empty. */
    method Request(dead: set<H>) returns (respChan: Option<Reply<H>>)
      modifies this
      ensures Outcome(State(), respChan) == Dispatch(old(State()), dead)
      ensures old(|timerInstances|) == 0 ==> respChan == None && State() == old(State())
      ensures EvictedFrom(old(timerInstances), timerInstances, dead)
      ensures forall x :: x in old(timerInstances) && x !in dead ==> x in timerInstances
      ensures respChan.None? <==> AllDead(old(timerInstances), dead)
      ensures respChan.None? ==> timerInstances == []
      ensures respChan.Some? ==>
                selectedTimerIdx < |timerInstances|
                && respChan.value.worker == timerInstances[selectedTimerIdx]
                && respChan.value.worker !in dead
      ensures old(CursorInRange(State())) ==> CursorInRange(State())
    {
      ghost var s0 := State();
      respChan := None;
      if |timerInstances| > 0 {
        while true
          invariant Dispatch(State(), dead) == Dispatch(s0, dead)
          decreases |timerInstances|
        {
          ghost var before := State();
          var err;
          respChan, err := GetNextTimer(dead);
          if err.Some? {
            break;
          }
          if respChan.Some? {
            break;
          }
          assert Dispatch(before, dead) == Dispatch(State(), dead);
        }
      }
      DispatchEvictsOnlyDead(s0, dead);
      DispatchNilIffAllDead(s0, dead);
      if CursorInRange(s0) {
        DispatchKeepsCursorInRange(s0, dead);
      }
    }

    /** Append a handle to the pool. */
    method RegisterInstance(ch: H)
      modifies this
      ensures State() == Register(old(State()), ch)
      ensures timerInstances == old(timerInstances) + [ch]
      ensures selectedTimerIdx == old(selectedTimerIdx)
      ensures old(CursorInRange(State())) ==> CursorInRange(State())
    {
      timerInstances := timerInstances + [ch];
    }
  }
}
