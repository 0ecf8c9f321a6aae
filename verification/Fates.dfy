/**
 What becomes of posted handles: how long a cancel flag stands, which fate a check seals, how a stopped worker
 drains, and what a handle risks that is posted again while it runs.
 */
module Fates {
  import opened Scheduler

  // ---- How long a flag stands ----

  /** Past its check of `h`, with the cleanup still to come that clears the flag of `h`. */
  predicate WillClear(w: Worker, h: Handle) {
    w.pc == SawCancel(h) || w.pc == Resuming(h) || w.pc == Resumed(h)
  }

  ghost predicate NobodyClears(s: State, h: Handle) {
    forall w | w in s.workers :: !WillClear(w, h)
  }

  /** The event is some worker's check of `h`. */
  predicate IsCheck(s: State, e: Event, h: Handle) {
    e.DoWork? && e.worker < |s.workers| && s.workers[e.worker].pc == Busy(h)
  }

  /** A run in which nobody checks `h`. */
  ghost predicate RunsUnchecked(s: State, es: seq<Event>, h: Handle, t: State)
    decreases |es|
  {
    if es == [] then t == s
    else Enabled(s, es[0]) && !IsCheck(s, es[0], h) && RunsUnchecked(Step(s, es[0]), es[1..], h, t)
  }

  /** The flag of `h` is there for the next check of `h`, however the run goes on until then. */
  ghost predicate FlagHolds(s: State, h: Handle) {
    forall es, t | RunsUnchecked(s, es, h, t) :: h in t.cancelled
  }

  lemma WorkKeepsFlag(w: Worker, cancelled: set<Handle>, h: Handle)
    requires CanWork(w) && !WillClear(w, h) && h in cancelled && w.pc != Busy(h)
    ensures h in Work(w, cancelled).1 && !WillClear(Work(w, cancelled).0, h)
  {
  }

  lemma StepKeepsFlag(s: State, e: Event, h: Handle)
    requires Enabled(s, e) && !IsCheck(s, e, h) && h in s.cancelled && NobodyClears(s, h)
    ensures h in Step(s, e).cancelled && NobodyClears(Step(s, e), h)
  {
    hide Work, CanWork, WillClear;
    match e
    case Pick(_) =>
    case Push(k) =>
      var w := s.workers[s.inflight[k].worker];
      SamePc(w, Pushed(w, s.inflight[k].handle), h);
    case Cancel(_) =>
    case Stop(i) => SamePc(s.workers[i], s.workers[i].(done := true), h);
    case DoWork(i) => WorkKeepsFlag(s.workers[i], s.cancelled, h);
  }

  lemma SamePc(w: Worker, v: Worker, h: Handle)
    requires w.pc == v.pc
    ensures WillClear(w, h) <==> WillClear(v, h)
  {
  }

  lemma {:induction false} RunKeepsFlag(s: State, es: seq<Event>, h: Handle, t: State)
    requires RunsUnchecked(s, es, h, t) && h in s.cancelled && NobodyClears(s, h)
    ensures h in t.cancelled && NobodyClears(t, h)
    decreases |es|
  {
    hide Step, Enabled, NobodyClears;
    if es != [] {
      StepKeepsFlag(s, es[0], h);
      RunKeepsFlag(Step(s, es[0]), es[1..], h, t);
    }
  }

  /** One action of a worker, as a run. */
  lemma OneAction(s: State, i: nat, h: Handle)
    requires i < |s.workers| && CanWork(s.workers[i]) && s.workers[i].pc != Busy(h)
    ensures RunsUnchecked(s, [DoWork(i)], h, Step(s, DoWork(i)))
  {
    hide Step, Work, CanWork;
    assert [DoWork(i)][1..] == [];
  }

  /** Worker `i` has yet to check `h`. */
  predicate Awaits(s: State, i: nat, h: Handle) {
    i < |s.workers| && s.workers[i].pc != Exited && h in Unseen(s.workers[i])
  }

  lemma ClearingKeepsAwaited(s: State, i: nat, h: Handle, j: nat)
    requires i < |s.workers| && WillClear(s.workers[i], h) && Awaits(s, j, h)
    ensures Awaits(Step(s, DoWork(i)), j, h)
  {
  }

  /** A worker that has still to clear the flag can do so at once, and whoever has yet to check `h` still has. */
  lemma ClearsFlag(s: State, i: nat, h: Handle, j: nat) returns (es: seq<Event>, t: State)
    requires i < |s.workers| && WillClear(s.workers[i], h)
    ensures RunsUnchecked(s, es, h, t) && h !in t.cancelled
    ensures Awaits(s, j, h) ==> Awaits(t, j, h)
  {
    hide Awaits, RunsUnchecked;
    var s1 := Step(s, DoWork(i));
    if Awaits(s, j, h) {
      ClearingKeepsAwaited(s, i, h, j);
    }
    if s.workers[i].pc == Resuming(h) {
      t := Step(s1, DoWork(i));
      if Awaits(s1, j, h) {
        ClearingKeepsAwaited(s1, i, h, j);
      }
      OneAction(s, i, h);
      OneAction(s1, i, h);
      UncheckedOn(s, [DoWork(i)], s1, [DoWork(i)], t, h);
      es := [DoWork(i)] + [DoWork(i)];
    } else {
      t := s1;
      OneAction(s, i, h);
      es := [DoWork(i)];
    }
  }

  /**
   A raised flag holds until the next check of its handle if and only if no worker stands between a check of
   that handle and the cleanup after it.
   */
  lemma FlagHoldsIff(s: State, h: Handle)
    requires h in s.cancelled
    ensures FlagHolds(s, h) <==> NobodyClears(s, h)
  {
    hide Step, WillClear, RunsUnchecked;
    if NobodyClears(s, h) {
      forall es, t | RunsUnchecked(s, es, h, t) ensures h in t.cancelled {
        RunKeepsFlag(s, es, h, t);
      }
    } else {
      var w :| w in s.workers && WillClear(w, h);
      var i :| 0 <= i < |s.workers| && s.workers[i] == w;
      var es, t := ClearsFlag(s, i, h, i);
    }
  }

  /** So for a cancel: whether it will be seen depends on where the workers stand when it is made. */
  lemma CancelHoldsIff(s: State, h: Handle)
    ensures FlagHolds(Step(s, Cancel(h)), h) <==> NobodyClears(s, h)
  {
    hide FlagHolds, WillClear;
    FlagHoldsIff(Step(s, Cancel(h)), h);
  }

  // ---- The check seals the fate ----

  /** The worker's log has `d` at place `k`, or has length `k` and `d` is what comes next. */
  predicate Sealed(w: Worker, k: nat, d: Handled) {
    if k < |w.log| then w.log[k] == d
    else
      k == |w.log|
      && if d.fate == WasDestroyed then w.pc == SawCancel(d.handle) || w.pc == Destroying(d.handle)
         else w.pc == Resuming(d.handle)
  }

  lemma WorkKeepsSealed(w: Worker, cancelled: set<Handle>, k: nat, d: Handled)
    requires CanWork(w) && Sealed(w, k, d)
    ensures Sealed(Work(w, cancelled).0, k, d)
  {
  }

  lemma StepKeepsSealed(s: State, e: Event, i: nat, k: nat, d: Handled)
    requires Enabled(s, e) && i < |s.workers| && Sealed(s.workers[i], k, d)
    ensures |Step(s, e).workers| == |s.workers| && Sealed(Step(s, e).workers[i], k, d)
  {
    hide Work, CanWork;
    if e.DoWork? && e.worker == i {
      WorkKeepsSealed(s.workers[i], s.cancelled, k, d);
    }
  }

  lemma {:induction false} RunKeepsSealed(s: State, es: seq<Event>, t: State, i: nat, k: nat, d: Handled)
    requires Runs(s, es, t) && i < |s.workers| && Sealed(s.workers[i], k, d)
    ensures |t.workers| == |s.workers| && Sealed(t.workers[i], k, d)
    decreases |es|
  {
    hide Step, Enabled, Sealed;
    if es != [] {
      StepKeepsSealed(s, es[0], i, k, d);
      RunKeepsSealed(Step(s, es[0]), es[1..], t, i, k, d);
    }
  }

  function FateOf(flagged: bool): Fate {
    if flagged then WasDestroyed else WasResumed
  }

  /**
   A handle is destroyed if and only if its flag stands at its check, and resumed otherwise: that is what the
   worker's next log entry says, whenever it comes and whatever happens meanwhile.
   */
  lemma CheckSealsFate(s: State, i: nat, h: Handle, after: seq<Event>, t: State)
    requires i < |s.workers| && s.workers[i].pc == Busy(h) && Runs(Step(s, DoWork(i)), after, t)
    ensures |t.workers| == |s.workers|
    ensures var k := |s.workers[i].log|;
            k < |t.workers[i].log| ==> t.workers[i].log[k] == Handled(h, FateOf(h in s.cancelled))
  {
    var s' := Step(s, DoWork(i));
    RunKeepsSealed(s', after, t, i, |s.workers[i].log|, Handled(h, FateOf(h in s.cancelled)));
  }

  /** A flag that holds is seen: the next check of its handle has it destroyed. */
  lemma HeldFlagDestroys(s: State, h: Handle, es: seq<Event>, t: State, i: nat, after: seq<Event>, u: State)
    requires h in s.cancelled && NobodyClears(s, h) && RunsUnchecked(s, es, h, t)
    requires i < |t.workers| && t.workers[i].pc == Busy(h) && Runs(Step(t, DoWork(i)), after, u)
    ensures |u.workers| == |t.workers|
    ensures var k := |t.workers[i].log|;
            k < |u.workers[i].log| ==> u.workers[i].log[k] == Handled(h, WasDestroyed)
  {
    hide Step, Runs, NobodyClears;
    RunKeepsFlag(s, es, h, t);
    CheckSealsFate(t, i, h, after, u);
  }

  // ---- Only cancelled handles are destroyed ----

  function CancelsOf(es: seq<Event>): set<Handle> {
    set e | e in es && e.Cancel? :: e.handle
  }

  /** The worker has destroyed, or is about to destroy, handles of `hs` only. */
  predicate DestroysOnly(w: Worker, hs: set<Handle>) {
    && (forall d | d in w.log && d.fate == WasDestroyed :: d.handle in hs)
    && (w.pc.SawCancel? || w.pc.Destroying? ==> w.pc.handle in hs)
  }

  ghost predicate Blamed(s: State, hs: set<Handle>) {
    s.cancelled <= hs && forall w | w in s.workers :: DestroysOnly(w, hs)
  }

  lemma WorkBlamed(w: Worker, cancelled: set<Handle>, hs: set<Handle>)
    requires CanWork(w) && DestroysOnly(w, hs) && cancelled <= hs
    ensures DestroysOnly(Work(w, cancelled).0, hs) && Work(w, cancelled).1 <= hs
  {
  }

  lemma StepBlamed(s: State, e: Event, hs: set<Handle>)
    requires Enabled(s, e) && Blamed(s, hs) && (e.Cancel? ==> e.handle in hs)
    ensures Blamed(Step(s, e), hs)
  {
    hide Work, CanWork;
    match e
    case Pick(_) =>
    case Push(k) => assert DestroysOnly(s.workers[s.inflight[k].worker], hs);
    case Cancel(_) =>
    case Stop(i) => assert DestroysOnly(s.workers[i], hs);
    case DoWork(i) => WorkBlamed(s.workers[i], s.cancelled, hs);
  }

  lemma {:induction false} RunBlamed(s: State, es: seq<Event>, t: State, hs: set<Handle>)
    requires Runs(s, es, t) && Blamed(s, hs) && CancelsOf(es) <= hs
    ensures Blamed(t, hs)
    decreases |es|
  {
    hide Step, Enabled, Blamed;
    if es != [] {
      assert es[0] in es;
      StepBlamed(s, es[0], hs);
      RunBlamed(Step(s, es[0]), es[1..], t, hs);
    }
  }

  lemma NothingToBlame(n: nat, hs: set<Handle>)
    ensures Blamed(Initial(n), hs)
  {
  }

  /** In every reachable state, a raised flag and a destroyed handle both go back to a cancel in the run. */
  lemma DestroyedWasCancelled(n: nat, es: seq<Event>, t: State)
    requires Runs(Initial(n), es, t)
    ensures forall h | h in t.cancelled :: Cancel(h) in es
    ensures forall w, d | w in t.workers && d in w.log && d.fate == WasDestroyed :: Cancel(d.handle) in es
  {
    NothingToBlame(n, CancelsOf(es));
    RunBlamed(Initial(n), es, t, CancelsOf(es));
    forall h | h in CancelsOf(es) ensures Cancel(h) in es {
      var e :| e in es && e.Cancel? && e.handle == h;
      assert e == Cancel(h);
    }
    forall w, d | w in t.workers && d in w.log && d.fate == WasDestroyed ensures Cancel(d.handle) in es {
      assert DestroysOnly(w, CancelsOf(es));
    }
  }

  // ---- Draining ----

  /**
   Once all workers have exited, every post has been resumed or destroyed exactly once, by one worker; and what
   was never cancelled has been resumed.
   */
  lemma DrainedExactlyOnce(n: nat, es: seq<Event>, t: State)
    requires 0 < n && Runs(Initial(n), es, t)
    requires forall w | w in t.workers :: w.pc == Exited
    ensures multiset(PostsOf(es)) == AllHandled(t.workers)
    ensures forall w, d | w in t.workers && d in w.log && Cancel(d.handle) !in es :: d.fate == WasResumed
  {
    hide RoundRobin, FlagsStand, FlaggedSpared, AllPushed, AllHandled;
    Reachable(n, es, t);
    assert t.workers[0] in t.workers;
    ExitedHandledAll(t.workers);
    assert PostHandles(t.inflight) == [];
    DestroyedWasCancelled(n, es, t);
  }

  /** The actions a stopped worker has left until it exits: eight for each queued handle, and the rest of a turn. */
  function StepsLeft(w: Worker): (k: nat)
    ensures k <= 8 * |w.queue| + 8
  {
    match w.pc
    case Exited => 0
    case Waiting => 8 * |w.queue| + 1
    case AtTop => 8 * |w.queue| + 2
    case Counting => 8 * |w.queue| + 3
    case Finishing => 8 * |w.queue| + 4
    case Destroying(_) => 8 * |w.queue| + 5
    case Resumed(_) => 8 * |w.queue| + 5
    case SawCancel(_) => 8 * |w.queue| + 6
    case Resuming(_) => 8 * |w.queue| + 6
    case Busy(_) => 8 * |w.queue| + 7
    case Took(_) => 8 * |w.queue| + 8
  }

  lemma WorkCountsDown(w: Worker, cancelled: set<Handle>)
    requires CanWork(w)
    ensures StepsLeft(Work(w, cancelled).0) == StepsLeft(w) - 1 && Work(w, cancelled).0.done == w.done
  {
  }

  /** How many of the events are actions of worker `i`. */
  function OwnSteps(es: seq<Event>, i: nat): nat {
    if es == [] then 0 else (if es[0] == DoWork(i) then 1 else 0) + OwnSteps(es[1..], i)
  }

  lemma StepCountsDown(s: State, e: Event, i: nat)
    requires Winding(s) && Enabled(s, e) && i < |s.workers| && s.workers[i].done
    ensures var t := Step(s, e);
            |t.workers| == |s.workers| && t.workers[i].done
            && StepsLeft(t.workers[i]) == StepsLeft(s.workers[i]) - (if e == DoWork(i) then 1 else 0)
  {
    hide Work, CanWork, WorkerInv;
    WorkerOf(s, i);
    if e == DoWork(i) {
      WorkCountsDown(s.workers[i], s.cancelled);
    }
  }

  lemma {:induction false} RunCountsDown(s: State, es: seq<Event>, t: State, i: nat)
    requires Inv(s) && Runs(s, es, t) && i < |s.workers| && s.workers[i].done
    ensures |t.workers| == |s.workers| && t.workers[i].done
    ensures StepsLeft(t.workers[i]) + OwnSteps(es, i) == StepsLeft(s.workers[i])
    decreases |es|
  {
    hide Step, Enabled, StepsLeft, Conserved, RoundRobin, FlagsStand, FlaggedSpared, Winding;
    if es != [] {
      StepCountsDown(s, es[0], i);
      StepKeeps(s, es[0]);
      RunCountsDown(Step(s, es[0]), es[1..], t, i);
    }
  }

  /**
   A stopped worker drains: it is never blocked before it exits, and it exits after exactly the number of its
   own actions that its queue and position give, however the others interleave.
   */
  lemma StoppedWorkerDrains(n: nat, before: seq<Event>, s: State, es: seq<Event>, t: State, i: nat)
    requires Runs(Initial(n), before, s) && i < |s.workers| && s.workers[i].done && Runs(s, es, t)
    ensures |t.workers| == |s.workers|
    ensures OwnSteps(es, i) <= StepsLeft(s.workers[i]) <= 8 * |s.workers[i].queue| + 8
    ensures t.workers[i].pc == Exited <==> OwnSteps(es, i) == StepsLeft(s.workers[i])
    ensures t.workers[i].pc != Exited ==> Enabled(t, DoWork(i))
  {
    hide Inv;
    Reachable(n, before, s);
    RunCountsDown(s, es, t, i);
  }

  // ---- What a vanished flag costs ----

  predicate AtCheckUnflagged(t: State, i: nat, h: Handle) {
    i < |t.workers| && t.workers[i].pc == Busy(h) && h !in t.cancelled
  }

  /** Some run leads to the next check of `h` with no flag for it. */
  ghost predicate MayResume(s: State, h: Handle) {
    exists es, t, i: nat :: RunsUnchecked(s, es, h, t) && AtCheckUnflagged(t, i, h)
  }

  lemma WorkTowardsCheck(w: Worker, cancelled: set<Handle>, h: Handle)
    requires h in Unseen(w) && w.pc != Exited && w.pc != Busy(h) && h !in cancelled
    ensures CanWork(w)
    ensures var (r, c) := Work(w, cancelled);
            h in Unseen(r) && r.pc != Exited && h !in c && StepsLeft(r) < StepsLeft(w)
  {
  }

  /** A worker that has yet to check `h` gets there on its own, through its queue. */
  lemma {:induction false} ReachesCheck(s: State, i: nat, h: Handle) returns (es: seq<Event>, t: State)
    requires Awaits(s, i, h) && h !in s.cancelled
    ensures RunsUnchecked(s, es, h, t) && AtCheckUnflagged(t, i, h)
    decreases StepsLeft(s.workers[i])
  {
    hide Work, CanWork, Unseen, StepsLeft;
    if s.workers[i].pc == Busy(h) {
      es, t := [], s;
    } else {
      WorkTowardsCheck(s.workers[i], s.cancelled, h);
      var rest;
      rest, t := ReachesCheck(Step(s, DoWork(i)), i, h);
      es := [DoWork(i)] + rest;
      assert es[1..] == rest;
    }
  }

  lemma UncheckedOn(s: State, a: seq<Event>, t: State, b: seq<Event>, u: State, h: Handle)
    requires RunsUnchecked(s, a, h, t) && RunsUnchecked(t, b, h, u)
    ensures RunsUnchecked(s, a + b, h, u)
    decreases |a|
  {
    hide Step, Enabled;
    if a == [] {
      assert a + b == b;
    } else {
      UncheckedOn(Step(s, a[0]), a[1..], t, b, u, h);
      assert (a + b)[1..] == a[1..] + b;
    }
  }

  /**
   A flagged handle that some worker has yet to check can come to its next check without the flag if and only if
   a worker stands between an earlier check of that handle and the cleanup after it.
   */
  lemma MayResumeIff(s: State, h: Handle, j: nat)
    requires h in s.cancelled && Awaits(s, j, h)
    ensures MayResume(s, h) <==> !NobodyClears(s, h)
  {
    hide Step, WillClear, RunsUnchecked, Awaits;
    if NobodyClears(s, h) {
      forall es, t, i: nat | RunsUnchecked(s, es, h, t) ensures !AtCheckUnflagged(t, i, h) {
        RunKeepsFlag(s, es, h, t);
      }
    } else {
      var w :| w in s.workers && WillClear(w, h);
      var i :| 0 <= i < |s.workers| && s.workers[i] == w;
      var es, t := ClearsFlag(s, i, h, j);
      var more, u := ReachesCheck(t, j, h);
      UncheckedOn(s, es, t, more, u, h);
      assert RunsUnchecked(s, es + more, h, u) && AtCheckUnflagged(u, j, h);
    }
  }

  /** At that check the worker resumes the handle, although it was cancelled. */
  lemma UnflaggedIsResumed(t: State, i: nat, h: Handle)
    requires AtCheckUnflagged(t, i, h)
    ensures Enabled(t, DoWork(i)) && Enabled(Step(t, DoWork(i)), DoWork(i))
    ensures var u := Step(Step(t, DoWork(i)), DoWork(i));
            |u.workers| == |t.workers| && u.workers[i].log == t.workers[i].log + [Handled(h, WasResumed)]
  {
  }

  // ---- A handle posted again while it runs ----

  /** The next `k` actions of a worker that nobody disturbs. */
  function Alone(w: Worker, cancelled: set<Handle>, k: nat): (Worker, set<Handle>)
    decreases k
  {
    if k == 0 || !CanWork(w) then (w, cancelled)
    else
      var (r, c) := Work(w, cancelled);
      Alone(r, c, k - 1)
  }

  lemma AloneNext(w: Worker, cancelled: set<Handle>, k: nat)
    requires CanWork(w)
    ensures Alone(w, cancelled, k + 1) == Alone(Work(w, cancelled).0, Work(w, cancelled).1, k)
  {
  }

  lemma AloneNone(w: Worker, cancelled: set<Handle>)
    ensures Alone(w, cancelled, 0) == (w, cancelled)
  {
  }

  /** From the top of the loop, a worker takes its first handle and resumes it. */
  lemma TopToResumed(w: Worker, cancelled: set<Handle>, h: Handle)
    requires w.pc == AtTop && w.queue != [] && w.queue[0] == h && h !in cancelled
    ensures var (r, c) := Alone(w, cancelled, 5);
            c == cancelled && r.pc == Resumed(h) && r.log == w.log + [Handled(h, WasResumed)]
            && r.queue == w.queue[1..]
  {
    hide Alone;
    var w1 := Work(w, cancelled).0;
    var w2 := Work(w1, cancelled).0;
    var w3 := Work(w2, cancelled).0;
    var w4 := Work(w3, cancelled).0;
    AloneNext(w, cancelled, 4);
    AloneNext(w1, cancelled, 3);
    AloneNext(w2, cancelled, 2);
    AloneNext(w3, cancelled, 1);
    AloneNext(w4, cancelled, 0);
    AloneNone(Work(w4, cancelled).0, cancelled);
  }

  /** After a resumption, the cleanup wipes the flag and the loop returns to its top. */
  lemma ResumedToTop(w: Worker, cancelled: set<Handle>, h: Handle)
    requires w.pc == Resumed(h)
    ensures var (r, c) := Alone(w, cancelled, 3);
            c == cancelled - {h} && r.pc == AtTop && r.log == w.log && r.queue == w.queue
  {
    hide Alone;
    var c := cancelled - {h};
    var w1 := Work(w, cancelled).0;
    var w2 := Work(w1, c).0;
    AloneNext(w, cancelled, 2);
    AloneNext(w1, c, 1);
    AloneNext(w2, c, 0);
    AloneNone(Work(w2, c).0, c);
  }

  /** The only worker `w`, the cancel flags, and nothing else going on. */
  predicate Solo(s: State, w: Worker, cancelled: set<Handle>) {
    s.workers == [w] && s.cancelled == cancelled && s.inflight == [] && !s.stopping
  }

  lemma RunsOn(s: State, a: seq<Event>, t: State, b: seq<Event>, u: State)
    requires Runs(s, a, t) && Runs(t, b, u)
    ensures Runs(s, a + b, u)
    decreases |a|
  {
    hide Step, Enabled;
    if a == [] {
      assert a + b == b;
    } else {
      RunsOn(Step(s, a[0]), a[1..], t, b, u);
      assert (a + b)[1..] == a[1..] + b;
    }
  }

  /** What a lone worker does is a run. */
  lemma {:induction false} AloneRuns(s: State, w: Worker, cancelled: set<Handle>, k: nat)
    returns (es: seq<Event>, t: State)
    requires Solo(s, w, cancelled)
    ensures Runs(s, es, t) && Solo(t, Alone(w, cancelled, k).0, Alone(w, cancelled, k).1)
    ensures forall e | e in es :: e == DoWork(0)
    decreases k
  {
    hide Work, CanWork;
    if k == 0 || !CanWork(w) {
      es, t := [], s;
    } else {
      var s1 := Step(s, DoWork(0));
      var (r, c) := Work(w, cancelled);
      assert [w][0 := r] == [r];
      var rest;
      rest, t := AloneRuns(s1, r, c, k - 1);
      es := [DoWork(0)] + rest;
      assert es[1..] == rest;
    }
  }

  /** Posting to a lone worker. */
  lemma PostRuns(s: State, w: Worker, cancelled: set<Handle>, h: Handle) returns (es: seq<Event>, t: State)
    requires Solo(s, w, cancelled)
    ensures Runs(s, es, t) && Solo(t, Pushed(w, h), cancelled)
  {
    es := [Pick(h), Push(0)];
    var s1 := Step(s, Pick(h));
    t := Step(s1, Push(0));
    assert s1.inflight == [Post(0, h)];
    assert [w][0 := Pushed(w, h)] == [Pushed(w, h)];
    assert es[1..] == [Push(0)] && es[1..][1..] == [];
    assert Runs(s1, [Push(0)], t);
  }

  /** One worker has resumed `h`, which has posted itself again and waits in the queue. */
  lemma RepostedRun(h: Handle) returns (es: seq<Event>, s: State, w: Worker)
    ensures Runs(Initial(1), es, s) && Solo(s, w, {})
    ensures w.pc == Resumed(h) && w.queue == [h] && w.log == [Handled(h, WasResumed)]
  {
    hide Alone, Runs, Step;
    var w0 := FreshWorker();
    assert Solo(Initial(1), w0, {});
    var post, s1 := PostRuns(Initial(1), w0, {}, h);
    var w1 := Pushed(w0, h);
    TopToResumed(w1, {}, h);
    var work, s2 := AloneRuns(s1, w1, {}, 5);
    var w2 := Alone(w1, {}, 5).0;
    var again, s3 := PostRuns(s2, w2, {}, h);
    RunsOn(Initial(1), post, s1, work, s2);
    RunsOn(Initial(1), post + work, s2, again, s3);
    es, s, w := post + work + again, s3, Pushed(w2, h);
  }

  /** From there a cancel is wiped by the cleanup, and the queued handle is resumed all the same. */
  lemma LostCancelRun(s: State, w: Worker, h: Handle) returns (es: seq<Event>, t: State, r: Worker)
    requires Solo(s, w, {h}) && w.pc == Resumed(h) && w.queue == [h]
    ensures Runs(s, es, t) && Solo(t, r, {}) && r.log == w.log + [Handled(h, WasResumed)]
    ensures forall e | e in es :: e == DoWork(0)
  {
    hide Alone, Runs, Step;
    ResumedToTop(w, {h}, h);
    var clean, s1 := AloneRuns(s, w, {h}, 3);
    var w1 := Alone(w, {h}, 3).0;
    assert {h} - {h} == {};
    TopToResumed(w1, {}, h);
    var next, s2 := AloneRuns(s1, w1, {}, 5);
    RunsOn(s, clean, s1, next, s2);
    es, t, r := clean + next, s2, Alone(w1, {}, 5).0;
  }

  /**
   A run from the start in which a handle posts itself again while it runs and is cancelled while it waits in
   the queue, before the check that is to come; it is resumed a second time.
   */
  lemma RepostLosesCancel(h: Handle) returns (before: seq<Event>, s: State, after: seq<Event>, t: State)
    ensures Runs(Initial(1), before, s) && |s.workers| == 1 && h in Unseen(s.workers[0])
    ensures Runs(Step(s, Cancel(h)), after, t) && forall e | e in after :: e == DoWork(0)
    ensures |t.workers| == 1 && t.workers[0].log == [Handled(h, WasResumed), Handled(h, WasResumed)]
  {
    hide Alone, Runs;
    var w, r;
    before, s, w := RepostedRun(h);
    after, t, r := LostCancelRun(Step(s, Cancel(h)), w, h);
  }
}
