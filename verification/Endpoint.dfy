/**
 The endpoint and its awaiters as objects: each method is one locked section, and takes the step of the state
 machine that bears its name.
 */
module Endpoints {
  import opened EndpointSpec
  import opened Wrappers

  /** One receive operation: its result slot, and whether a continuation is registered. */
  class RecvAwaiter {
    var result: Option<Message>
    var continuation: bool

    constructor ()
      ensures result == None && !continuation
    {
      result := None;
      continuation := false;
    }

    /** What the receive expression yields. */
    function AwaitResume(): Message
      reads this
    {
      match result case Some(m) => m case None => NO_MESSAGE
    }
  }

  /** The awaiter's slots fit its phase. */
  predicate Reflects(w: RecvAwaiter, p: Phase)
    reads w
  {
    match p
    case Checked => w.result == None
    case Parked => w.result == None && w.continuation
    case Got(m) => w.result == Some(m)
    case Empty => w.result == None || w.result == Some(NO_MESSAGE)
  }

  ghost predicate AllReflect(phases: map<RecvAwaiter, Phase>)
    reads phases.Keys
  {
    forall w | w in phases :: Reflects(w, phases[w])
  }

  /** Clears the result of each waiter and resumes it, in order. */
  method WakeAll(waiters: seq<RecvAwaiter>) returns (resumed: seq<RecvAwaiter>)
    requires forall w | w in waiters :: w.result == None && w.continuation
    modifies waiters
    ensures resumed == waiters && forall w | w in waiters :: w.result == None && w.continuation
  {
    resumed := [];
    for k := 0 to |waiters|
      invariant resumed == waiters[..k]
      invariant forall w | w in waiters :: w.result == None && w.continuation
    {
      var w := waiters[k];
      w.result := None;
      if w.continuation {
        resumed := resumed + [w];
      }
    }
  }

  class Endpoint {
    var queue: seq<Message>
    var waiters: seq<RecvAwaiter>
    var closed: bool
    ghost var model: State<RecvAwaiter>

    ghost predicate Valid()
      reads this, model.phases.Keys
    {
      && queue == model.queue && waiters == model.waiters && closed == model.closed
      && Inv(model)
      && AllReflect(model.phases)
    }

    constructor ()
      ensures Valid() && model == Initial()
    {
      queue := [];
      waiters := [];
      closed := false;
      model := Initial();
      InitialInv<RecvAwaiter>();
    }

    /** Hands `m` to the longest-parked receiver and returns it for resumption, or queues it, or drops it. */
    method SendNowait(m: Message) returns (resume: RecvAwaiter?)
      requires Valid()
      modifies this, model.phases.Keys
      ensures Valid() && model == Send(old(model), m)
      ensures old(waiters) != [] ==> waiters == old(waiters)[1..] && queue == old(queue)
      ensures old(waiters) == [] ==>
                waiters == [] && queue == if old(closed) then old(queue) else old(queue) + [m]
      ensures closed == old(closed)
      ensures resume == if old(waiters) == [] then null else old(waiters)[0]
      ensures resume != null ==> resume.result == Some(m)
    {
      hide Inv;
      SendKeeps(model, m);
      resume := null;
      if waiters != [] {
        WaitersHavePhases(model);
        var w := waiters[0];
        assert Reflects(w, model.phases[w]);
        waiters := waiters[1..];
        if w.continuation {
          resume := w;
        }
        w.result := Some(m);
      } else if !closed {
        queue := queue + [m];
      }
      model := Send(model, m);
    }

    /** The fast path: takes a queued message, or reports that the operation must suspend. */
    method AwaitReady(w: RecvAwaiter) returns (ready: bool)
      requires Valid() && w !in model.phases && w.result == None
      modifies this, w
      ensures Valid() && model == Ready(old(model), w)
      ensures ready <==> model.phases[w].Got?
      ensures ready <==> old(queue) != []
      ensures ready ==> w.result == Some(old(queue)[0]) && queue == old(queue)[1..]
      ensures !ready ==> queue == []
      ensures waiters == old(waiters) && closed == old(closed)
    {
      hide Inv;
      ReadyKeeps(model, w);
      model := Ready(model, w);
      if queue == [] {
        return false;
      }
      w.result := Some(queue[0]);
      queue := queue[1..];
      ready := true;
    }

    /** The slow path: looks again, gives up on a closed endpoint, or parks. */
    method AwaitSuspend(w: RecvAwaiter) returns (suspended: bool)
      requires Valid() && w in model.phases && model.phases[w] == Checked
      modifies this, w
      ensures Valid() && model == Suspend(old(model), w)
      ensures suspended <==> model.phases[w] == Parked
      ensures suspended <==> old(queue) == [] && !old(closed)
      ensures waiters == if suspended then old(waiters) + [w] else old(waiters)
      ensures queue == if old(queue) == [] then [] else old(queue)[1..]
      ensures closed == old(closed)
      ensures !suspended ==> w.AwaitResume() == (if old(queue) == [] then NO_MESSAGE else old(queue)[0])
    {
      hide Inv;
      SuspendKeeps(model, w);
      model := Suspend(model, w);
      if queue != [] {
        w.result := Some(queue[0]);
        queue := queue[1..];
        return false;
      }
      if closed {
        w.result := Some(NO_MESSAGE);
        return false;
      }
      w.continuation := true;
      waiters := waiters + [w];
      suspended := true;
    }

    method TryRecv() returns (r: Option<Message>)
      requires Valid()
      modifies this
      ensures Valid() && model == TryTake(old(model))
      ensures r == if old(queue) == [] then None else Some(old(queue)[0])
      ensures queue == if old(queue) == [] then [] else old(queue)[1..]
      ensures waiters == old(waiters) && closed == old(closed)
    {
      hide Inv;
      TryTakeKeeps(model);
      model := TryTake(model);
      if queue == [] {
        return None;
      }
      r := Some(queue[0]);
      queue := queue[1..];
    }

    /** Closes and wakes every parked receiver, in park order, with nothing. */
    method Close() returns (resumed: seq<RecvAwaiter>)
      requires Valid()
      modifies this, model.phases.Keys
      ensures Valid() && model == EndpointSpec.Close(old(model))
      ensures closed && waiters == [] && queue == old(queue)
      ensures resumed == old(waiters) && forall w | w in resumed :: w.AwaitResume() == NO_MESSAGE
    {
      hide Inv, AllReflect;
      WaitersAreParked(model);
      CloseKeeps(model);
      closed := true;
      resumed := WakeAll(waiters);
      AllAwake(model);
      model := EndpointSpec.Close(model);
      waiters := [];
    }
  }

  lemma WaitersAreParked(s: State<RecvAwaiter>)
    requires Inv(s) && AllReflect(s.phases)
    ensures forall w | w in s.waiters :: w in s.phases && w.result == None && w.continuation
  {
    WaitersHavePhases(s);
    assert forall w | w in s.waiters :: Reflects(w, s.phases[w]);
  }

  /** Waking the waiters, whose results were clear already, leaves everyone as the closed state has it. */
  twostate lemma AllAwake(s: State<RecvAwaiter>)
    requires old(AllReflect(s.phases))
    requires forall w | w in s.waiters :: w in s.phases && w.result == None
    requires forall w | w in s.phases && w !in s.waiters :: unchanged(w)
    ensures AllReflect(EndpointSpec.Close(s).phases)
  {
  }

  lemma WaitersHavePhases(s: State<RecvAwaiter>)
    requires Inv(s)
    ensures forall w | w in s.waiters :: w in s.phases && s.phases[w] == Parked
  {
  }
}
