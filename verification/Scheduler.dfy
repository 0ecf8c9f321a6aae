/**
 The worker-pool scheduler as a state machine. Every atomic action of the code is one step: the counter fetch
 and the locked push of a post, raising and clearing a cancel flag, stopping a worker, and the actions of each
 worker's loop. Posters, cancellers and workers interleave freely.
 */
module Scheduler {
  import opened Arithmetic
  import opened Bytes
  import opened Sequences

  type Handle = nat

  /** Where a worker's loop stands. */
  datatype Pc =
    | AtTop
    | Waiting
    | Took(handle: Handle)
    | Busy(handle: Handle)
    | SawCancel(handle: Handle)
    | Destroying(handle: Handle)
    | Resuming(handle: Handle)
    | Resumed(handle: Handle)
    | Finishing
    | Counting
    | Exited

  datatype Fate = WasResumed | WasDestroyed

  datatype Handled = Handled(handle: Handle, fate: Fate)

  /** A worker's fields, with two histories: what was pushed to it and what it did with handles. */
  datatype Worker = Worker(queue: seq<Handle>, done: bool, idle: nat, busy: nat, completed: nat, pc: Pc,
                           pushed: seq<Handle>, log: seq<Handled>)

  /** A post whose worker is chosen and whose push is still to come. */
  datatype Post = Post(worker: nat, handle: Handle)

  /**
   The scheduler, with histories: the handles posted, in the order of their counter fetches; the handles
   flagged before any check of them; and the handles checked.
   */
  datatype State = State(workers: seq<Worker>, next: Word, cancelled: set<Handle>, inflight: seq<Post>,
                         stopping: bool, posts: seq<Handle>, flagged: set<Handle>, checked: set<Handle>)

  function FreshWorker(): Worker {
    Worker([], false, 0, 0, 0, AtTop, [], [])
  }

  function Initial(n: nat): State {
    State(seq(n, _ => FreshWorker()), 0, {}, [], false, [], {}, {})
  }

  // ---- The steps of a worker's loop ----

  /** A worker waits until there is work or it is told to stop; a worker that exited does nothing. */
  predicate CanWork(w: Worker) {
    w.pc != Exited && (w.pc == Waiting ==> w.queue != [] || w.done)
  }

  /** The next action of the loop, on the worker and the cancel flags. */
  function Work(w: Worker, cancelled: set<Handle>): (Worker, set<Handle>)
    requires CanWork(w)
  {
    match w.pc
    case AtTop => (w.(idle := w.idle + 1, pc := Waiting), cancelled)
    case Waiting =>
      var idle := if w.idle > 0 then w.idle - 1 else 0;
      if w.queue == [] then (w.(idle := idle, pc := Exited), cancelled)
      else (w.(idle := idle, queue := w.queue[1..], pc := Took(w.queue[0])), cancelled)
    case Took(h) => (w.(busy := w.busy + 1, pc := Busy(h)), cancelled)
    case Busy(h) => (w.(pc := if h in cancelled then SawCancel(h) else Resuming(h)), cancelled)
    case SawCancel(h) => (w.(pc := Destroying(h)), cancelled - {h})
    case Destroying(h) => (w.(pc := Finishing, log := w.log + [Handled(h, WasDestroyed)]), cancelled)
    case Resuming(h) => (w.(pc := Resumed(h), log := w.log + [Handled(h, WasResumed)]), cancelled)
    case Resumed(h) => (w.(pc := Finishing), cancelled - {h})
    case Finishing => (w.(busy := if w.busy > 0 then w.busy - 1 else 0, pc := Counting), cancelled)
    case Counting => (w.(completed := w.completed + 1, pc := AtTop), cancelled)
    case Exited => (w, cancelled)
  }

  datatype Event =
    | Pick(handle: Handle)
    | Push(post: nat)
    | Cancel(handle: Handle)
    | Stop(worker: nat)
    | DoWork(worker: nat)

  /** Posting ends before the scheduler is destroyed, which is what stops the workers. */
  predicate Enabled(s: State, e: Event) {
    match e
    case Pick(h) => s.workers != [] && !s.stopping
    case Push(k) => k < |s.inflight| && s.inflight[k].worker < |s.workers|
    case Cancel(h) => true
    case Stop(w) => w < |s.workers| && s.inflight == []
    case DoWork(w) => w < |s.workers| && CanWork(s.workers[w])
  }

  function Pushed(w: Worker, h: Handle): Worker {
    w.(queue := w.queue + [h], pushed := w.pushed + [h])
  }

  /** The handle a worker is about to check, if it is. */
  function CheckedBy(w: Worker): set<Handle> {
    if w.pc.Busy? then {w.pc.handle} else {}
  }

  function Step(s: State, e: Event): State
    requires Enabled(s, e)
  {
    match e
    case Pick(h) =>
      s.(next := Wrap(s.next + 1), inflight := s.inflight + [Post(s.next % |s.workers|, h)], posts := s.posts + [h])
    case Push(k) =>
      var p := s.inflight[k];
      s.(inflight := Without(s.inflight, k), workers := s.workers[p.worker := Pushed(s.workers[p.worker], p.handle)])
    case Cancel(h) =>
      s.(cancelled := s.cancelled + {h}, flagged := if h in s.checked then s.flagged else s.flagged + {h})
    case Stop(w) => s.(stopping := true, workers := s.workers[w := s.workers[w].(done := true)])
    case DoWork(w) =>
      var (worker, cancelled) := Work(s.workers[w], s.cancelled);
      s.(workers := s.workers[w := worker], cancelled := cancelled, checked := s.checked + CheckedBy(s.workers[w]))
  }

  ghost predicate Runs(s: State, es: seq<Event>, t: State)
    decreases |es|
  {
    if es == [] then t == s else Enabled(s, es[0]) && Runs(Step(s, es[0]), es[1..], t)
  }

  // ---- One worker ----

  function HandlesOf(log: seq<Handled>): (hs: seq<Handle>)
    ensures |hs| == |log|
  {
    seq(|log|, i requires 0 <= i < |log| => log[i].handle)
  }

  /** The handle taken from the queue and not checked yet. */
  function Unchecked(pc: Pc): seq<Handle> {
    match pc
    case Took(h) => [h]
    case Busy(h) => [h]
    case _ => []
  }

  /** The handle checked and not disposed of yet. */
  function Decided(pc: Pc): seq<Handle> {
    match pc
    case SawCancel(h) => [h]
    case Destroying(h) => [h]
    case Resuming(h) => [h]
    case _ => []
  }

  /** What the worker has checked, in order, and what it has not. */
  function Seen(w: Worker): seq<Handle> {
    HandlesOf(w.log) + Decided(w.pc)
  }

  function Unseen(w: Worker): seq<Handle> {
    Unchecked(w.pc) + w.queue
  }

  /** 1 while the worker holds a handle that it has not counted as completed. */
  function InHand(pc: Pc): nat {
    if pc in {AtTop, Waiting, Exited} then 0 else 1
  }

  function Disposed(pc: Pc): nat {
    if pc.Resumed? || pc.Finishing? || pc.Counting? then 1 else 0
  }

  /** In order, what was pushed is what was disposed of, then the handle in hand, then the queue. */
  predicate InOrder(w: Worker) {
    w.pushed == Seen(w) + Unseen(w)
  }

  /** The three counters say what they claim; an exited worker was told to stop and has an empty queue. */
  predicate Counters(w: Worker) {
    && w.completed + Disposed(w.pc) == |w.log|
    && w.idle == (if w.pc == Waiting then 1 else 0)
    && w.busy == (if InHand(w.pc) == 1 && !w.pc.Took? && !w.pc.Counting? then 1 else 0)
    && (w.pc == Exited ==> w.done && w.queue == [])
  }

  predicate WorkerInv(w: Worker) {
    InOrder(w) && Counters(w)
  }

  lemma WorkKeepsCounters(w: Worker, cancelled: set<Handle>)
    requires Counters(w) && CanWork(w)
    ensures Counters(Work(w, cancelled).0)
  {
  }

  lemma LogOneMore(log: seq<Handled>, d: Handled)
    ensures HandlesOf(log + [d]) == HandlesOf(log) + [d.handle]
  {
  }

  lemma TakingKeepsOrder(w: Worker, cancelled: set<Handle>)
    requires InOrder(w) && CanWork(w) && w.pc == Waiting
    ensures InOrder(Work(w, cancelled).0)
  {
    hide HandlesOf;
    if w.queue != [] {
      assert w.queue == [w.queue[0]] + w.queue[1..];
    }
  }

  lemma CheckingKeepsOrder(w: Worker, cancelled: set<Handle>)
    requires InOrder(w) && w.pc.Busy?
    ensures InOrder(Work(w, cancelled).0)
  {
    hide HandlesOf;
    var one := [w.pc.handle];
    assert HandlesOf(w.log) + [] + (one + w.queue) == HandlesOf(w.log) + one + ([] + w.queue);
  }

  lemma DisposingKeepsOrder(w: Worker, cancelled: set<Handle>)
    requires InOrder(w) && (w.pc.Destroying? || w.pc.Resuming?)
    ensures InOrder(Work(w, cancelled).0)
  {
    hide HandlesOf;
    LogOneMore(w.log, Handled(w.pc.handle, WasDestroyed));
    LogOneMore(w.log, Handled(w.pc.handle, WasResumed));
  }

  lemma WorkKeepsHistory(w: Worker, cancelled: set<Handle>)
    requires CanWork(w)
    ensures Work(w, cancelled).0.pushed == w.pushed && Work(w, cancelled).0.done == w.done
  {
  }

  lemma IdleActionsKeepOrder(w: Worker, cancelled: set<Handle>)
    requires InOrder(w) && CanWork(w)
    requires !(w.pc.Waiting? || w.pc.Busy? || w.pc.Destroying? || w.pc.Resuming?)
    ensures InOrder(Work(w, cancelled).0)
  {
    hide HandlesOf;
  }

  lemma WorkKeepsOrder(w: Worker, cancelled: set<Handle>)
    requires InOrder(w) && CanWork(w)
    ensures InOrder(Work(w, cancelled).0)
  {
    hide InOrder, Work;
    if w.pc.Waiting? {
      TakingKeepsOrder(w, cancelled);
    } else if w.pc.Busy? {
      CheckingKeepsOrder(w, cancelled);
    } else if w.pc.Destroying? || w.pc.Resuming? {
      DisposingKeepsOrder(w, cancelled);
    } else {
      IdleActionsKeepOrder(w, cancelled);
    }
  }

  lemma WorkKeepsWorker(w: Worker, cancelled: set<Handle>)
    requires WorkerInv(w) && CanWork(w)
    ensures WorkerInv(Work(w, cancelled).0)
    ensures Work(w, cancelled).0.pushed == w.pushed && Work(w, cancelled).0.done == w.done
  {
    hide InOrder, Counters, Work, CanWork;
    WorkKeepsCounters(w, cancelled);
    WorkKeepsOrder(w, cancelled);
    WorkKeepsHistory(w, cancelled);
  }

  /** The count form of conservation. */
  lemma WorkerCounts(w: Worker)
    requires WorkerInv(w)
    ensures |w.pushed| == |w.queue| + InHand(w.pc) + w.completed
  {
  }

  // ---- Conservation over all workers ----

  function PostHandles(ps: seq<Post>): (hs: seq<Handle>)
    ensures |hs| == |ps|
  {
    seq(|ps|, i requires 0 <= i < |ps| => ps[i].handle)
  }

  /** Everything ever pushed to some worker. */
  function AllPushed(ws: seq<Worker>): multiset<Handle> {
    if ws == [] then multiset{} else multiset(ws[0].pushed) + AllPushed(ws[1..])
  }

  /** Everything some worker has resumed or destroyed. */
  function AllHandled(ws: seq<Worker>): multiset<Handle> {
    if ws == [] then multiset{} else multiset(HandlesOf(ws[0].log)) + AllHandled(ws[1..])
  }

  lemma Commute(a: multiset<Handle>, b: multiset<Handle>)
    ensures a + b == b + a
  {
  }

  lemma Shuffle(a: multiset<Handle>, b: multiset<Handle>, c: multiset<Handle>, d: multiset<Handle>, e: multiset<Handle>)
    requires b + c == d + e
    ensures (a + b) + c == (a + d) + e
  {
    assert (a + b) + c == a + (b + c);
    assert (a + d) + e == a + (d + e);
  }

  lemma {:induction false} AllPushedUpdate(ws: seq<Worker>, i: nat, w: Worker)
    requires i < |ws|
    ensures AllPushed(ws[i := w]) + multiset(ws[i].pushed) == AllPushed(ws) + multiset(w.pushed)
  {
    var ws' := ws[i := w];
    if i > 0 {
      AllPushedUpdate(ws[1..], i - 1, w);
      assert ws'[1..] == ws[1..][i - 1 := w] && ws'[0] == ws[0];
      Shuffle(multiset(ws[0].pushed), AllPushed(ws'[1..]), multiset(ws[i].pushed), AllPushed(ws[1..]),
        multiset(w.pushed));
    } else {
      assert ws'[1..] == ws[1..] && ws'[0] == w;
      Shuffle(AllPushed(ws[1..]), multiset(w.pushed), multiset(ws[0].pushed), multiset(ws[0].pushed),
        multiset(w.pushed));
      Commute(AllPushed(ws[1..]), multiset(w.pushed));
      Commute(AllPushed(ws[1..]), multiset(ws[0].pushed));
    }
  }

  /** Each posted handle is in flight or was pushed, once per post. */
  ghost predicate Conserved(posts: seq<Handle>, inflight: seq<Post>, ws: seq<Worker>) {
    multiset(posts) == multiset(PostHandles(inflight)) + AllPushed(ws)
  }

  lemma PostHandlesOneMore(ps: seq<Post>, p: Post)
    ensures PostHandles(ps + [p]) == PostHandles(ps) + [p.handle]
  {
  }

  lemma PostHandlesWithout(ps: seq<Post>, k: nat)
    requires k < |ps|
    ensures multiset(PostHandles(ps)) == multiset(PostHandles(Without(ps, k))) + multiset{ps[k].handle}
  {
    var hs := PostHandles(ps);
    assert hs == hs[..k] + [hs[k]] + hs[k + 1..];
    assert PostHandles(Without(ps, k)) == hs[..k] + hs[k + 1..];
  }

  lemma Cancels(a: multiset<Handle>, b: multiset<Handle>, c: multiset<Handle>)
    requires a + c == b + c
    ensures a == b
  {
    forall h ensures a[h] == b[h] {
      assert (a + c)[h] == (b + c)[h];
    }
  }

  lemma Rebalance(ps': multiset<Handle>, ps: multiset<Handle>, h: multiset<Handle>, ws: multiset<Handle>,
      ws': multiset<Handle>, w: multiset<Handle>)
    requires ps == ps' + h && ws' + w == ws + (w + h)
    ensures ps' + ws' == ps + ws
  {
    assert ws' + w == (ws + h) + w;
    Cancels(ws', ws + h, w);
  }

  lemma ConservedAfterPush(posts: seq<Handle>, ps: seq<Post>, ws: seq<Worker>, k: nat)
    requires Conserved(posts, ps, ws) && k < |ps| && ps[k].worker < |ws|
    ensures Conserved(posts, Without(ps, k), ws[ps[k].worker := Pushed(ws[ps[k].worker], ps[k].handle)])
  {
    hide AllPushed, PostHandles, Without;
    var i, h := ps[k].worker, ps[k].handle;
    PostHandlesWithout(ps, k);
    AllPushedUpdate(ws, i, Pushed(ws[i], h));
    assert Pushed(ws[i], h).pushed == ws[i].pushed + [h];
    Rebalance(multiset(PostHandles(Without(ps, k))), multiset(PostHandles(ps)), multiset{h}, AllPushed(ws),
      AllPushed(ws[i := Pushed(ws[i], h)]), multiset(ws[i].pushed));
  }

  lemma ConservedAfterWorker(posts: seq<Handle>, ps: seq<Post>, ws: seq<Worker>, i: nat, w: Worker)
    requires Conserved(posts, ps, ws) && i < |ws| && w.pushed == ws[i].pushed
    ensures Conserved(posts, ps, ws[i := w])
  {
    hide AllPushed, PostHandles;
    AllPushedUpdate(ws, i, w);
    Cancels(AllPushed(ws[i := w]), AllPushed(ws), multiset(w.pushed));
  }

  // ---- Round robin ----

  /** How many of the first `k` posts worker `w` of `n` is chosen for; the counter is a 64-bit word. */
  function Assigned(k: nat, n: nat, w: nat): nat
    requires n > 0
  {
    if k == 0 then 0 else Assigned(k - 1, n, w) + (if Wrap(k - 1) % n == w then 1 else 0)
  }

  lemma NextShare(r: nat, r': nat, q: nat, q': nat, n: nat, w: nat)
    requires r < n && w < n
    requires if r + 1 < n then r' == r + 1 && q' == q else r' == 0 && q' == q + 1
    ensures q' + (if w < r' then 1 else 0) == q + (if w < r then 1 else 0) + (if r == w then 1 else 0)
  {
  }

  lemma WrapSmall(k: nat)
    requires k < TWO_64
    ensures Wrap(k) == k
  {
  }

  lemma AssignedNext(k: nat, n: nat, w: nat)
    requires 0 < n && k < TWO_64
    ensures Assigned(k + 1, n, w) == Assigned(k, n, w) + (if k % n == w then 1 else 0)
  {
    hide Wrap;
    WrapSmall(k);
  }

  /** An even share of `k` posts: the quotient, and one more for the first few workers. */
  function Share(k: nat, n: nat, w: nat): nat
    requires n > 0
  {
    k / n + (if w < k % n then 1 else 0)
  }

  lemma ShareNext(k: nat, n: nat, w: nat)
    requires w < n
    ensures Share(k + 1, n, w) == Share(k, n, w) + (if k % n == w then 1 else 0)
  {
    DivModNext(k, n);
    NextShare(k % n, (k + 1) % n, k / n, (k + 1) / n, n, w);
  }

  lemma ShareNone(n: nat, w: nat)
    requires w < n
    ensures Assigned(0, n, w) == Share(0, n, w) == 0
  {
    DivModUnique(0, n, 0, 0);
  }

  /** Before the counter wraps the posts are spread evenly: the quotient each, and one more for the first few. */
  lemma {:induction false} AssignedEvenly(k: nat, n: nat, w: nat)
    requires w < n && k <= TWO_64
    ensures Assigned(k, n, w) == Share(k, n, w)
  {
    hide Assigned, Share;
    if k == 0 {
      ShareNone(n, w);
    } else {
      AssignedEvenly(k - 1, n, w);
      AssignedNext(k - 1, n, w);
      ShareNext(k - 1, n, w);
    }
  }

  function CountTo(ps: seq<Post>, w: nat): nat {
    if ps == [] then 0 else CountTo(ps[..|ps| - 1], w) + (if ps[|ps| - 1].worker == w then 1 else 0)
  }

  lemma {:induction false} CountToConcat(a: seq<Post>, b: seq<Post>, w: nat)
    ensures CountTo(a + b, w) == CountTo(a, w) + CountTo(b, w)
  {
    if b == [] {
      assert a + b == a;
    } else {
      CountToConcat(a, b[..|b| - 1], w);
      assert (a + b)[..|a + b| - 1] == a + b[..|b| - 1];
    }
  }

  lemma CountToOneMore(ps: seq<Post>, p: Post, w: nat)
    ensures CountTo(ps + [p], w) == CountTo(ps, w) + (if p.worker == w then 1 else 0)
  {
    assert (ps + [p])[..|ps|] == ps;
  }

  lemma CountToWithout(ps: seq<Post>, k: nat, w: nat)
    requires k < |ps|
    ensures CountTo(ps, w) == CountTo(Without(ps, k), w) + (if ps[k].worker == w then 1 else 0)
  {
    assert ps == ps[..k] + [ps[k]] + ps[k + 1..];
    CountToConcat(ps[..k] + [ps[k]], ps[k + 1..], w);
    CountToOneMore(ps[..k], ps[k], w);
    CountToConcat(ps[..k], ps[k + 1..], w);
  }

  /** What worker `w` got, or is about to get, is its share of the posts so far. */
  predicate HasShare(posts: nat, ps: seq<Post>, ws: seq<Worker>, w: nat)
    requires w < |ws|
  {
    |ws[w].pushed| + CountTo(ps, w) == Assigned(posts, |ws|, w)
  }

  ghost predicate RoundRobin(posts: nat, next: Word, ps: seq<Post>, ws: seq<Worker>) {
    && next == Wrap(posts)
    && (forall p | p in ps :: p.worker < |ws|)
    && (forall w | 0 <= w < |ws| :: HasShare(posts, ps, ws, w))
  }

  lemma RoundRobinAfterPick(posts: nat, next: Word, ps: seq<Post>, ws: seq<Worker>, h: Handle)
    requires RoundRobin(posts, next, ps, ws) && ws != []
    ensures RoundRobin(posts + 1, Wrap(next + 1), ps + [Post(next % |ws|, h)], ws)
  {
    hide CountTo;
    var p := Post(next % |ws|, h);
    var posts', ps' := posts + 1, ps + [p];
    forall w | 0 <= w < |ws| ensures HasShare(posts', ps', ws, w) {
      assert HasShare(posts, ps, ws, w);
      CountToOneMore(ps, p, w);
    }
    NextWraps(posts);
  }

  lemma NextWraps(k: nat)
    ensures Wrap(Wrap(k) + 1) == Wrap(k + 1)
  {
  }

  lemma RoundRobinAfterPush(posts: nat, next: Word, ps: seq<Post>, ws: seq<Worker>, k: nat)
    requires RoundRobin(posts, next, ps, ws) && k < |ps| && ps[k].worker < |ws|
    ensures RoundRobin(posts, next, Without(ps, k), ws[ps[k].worker := Pushed(ws[ps[k].worker], ps[k].handle)])
  {
    hide CountTo, Assigned;
    var i := ps[k].worker;
    var ws' := ws[i := Pushed(ws[i], ps[k].handle)];
    forall w | 0 <= w < |ws'| ensures HasShare(posts, Without(ps, k), ws', w) {
      assert HasShare(posts, ps, ws, w);
      CountToWithout(ps, k, w);
    }
  }

  lemma RoundRobinAfterWorker(posts: nat, next: Word, ps: seq<Post>, ws: seq<Worker>, i: nat, worker: Worker)
    requires RoundRobin(posts, next, ps, ws) && i < |ws| && worker.pushed == ws[i].pushed
    ensures RoundRobin(posts, next, ps, ws[i := worker])
  {
    hide CountTo, Assigned;
    var ws' := ws[i := worker];
    forall w | 0 <= w < |ws'| ensures HasShare(posts, ps, ws', w) {
      assert HasShare(posts, ps, ws, w);
    }
  }

  // ---- Stopping ----

  ghost predicate Winding(s: State) {
    && (s.stopping ==> s.inflight == [])
    && (forall w | w in s.workers :: WorkerInv(w) && (w.done ==> s.stopping))
  }

  // ---- Cancellation ----

  /** What a worker has checked is in the set of checked handles. */
  predicate SeenIsChecked(w: Worker, checked: set<Handle>) {
    && (forall h | h in Seen(w) :: h in checked)
    && (w.pc.Resumed? ==> w.pc.handle in checked)
  }

  /** The worker has not resumed `h` and is not about to. */
  predicate Spares(w: Worker, h: Handle) {
    Handled(h, WasResumed) !in w.log && w.pc != Resuming(h)
  }

  ghost predicate SeenBySome(ws: seq<Worker>, h: Handle) {
    exists i :: 0 <= i < |ws| && h in Seen(ws[i])
  }

  /** The flags of unchecked handles stand, and the checked handles are those that workers have seen. */
  ghost predicate FlagsStand(s: State) {
    && (forall h | h in s.flagged && h !in s.checked :: h in s.cancelled)
    && (forall w | w in s.workers :: SeenIsChecked(w, s.checked))
    && (forall h | h in s.checked :: SeenBySome(s.workers, h))
  }

  /** A handle posted once and flagged before its check is not resumed. */
  ghost predicate FlaggedSpared(s: State) {
    forall w, h | w in s.workers && h in s.flagged && multiset(s.posts)[h] <= 1 :: Spares(w, h)
  }

  ghost predicate Inv(s: State) {
    && Conserved(s.posts, s.inflight, s.workers)
    && RoundRobin(|s.posts|, s.next, s.inflight, s.workers)
    && Winding(s)
    && FlagsStand(s)
    && FlaggedSpared(s)
  }

  // ---- Every step keeps the invariant ----

  lemma SparedAfterPick(s: State, h: Handle)
    requires FlaggedSpared(s) && Enabled(s, Pick(h))
    ensures FlaggedSpared(Step(s, Pick(h)))
  {
    hide Spares;
    var posts := s.posts + [h];
    forall w, x | w in s.workers && x in s.flagged && multiset(posts)[x] <= 1 ensures Spares(w, x) {
      assert multiset(posts)[x] == multiset(s.posts)[x] + multiset{h}[x];
    }
  }

  lemma ConservedAfterPick(posts: seq<Handle>, ps: seq<Post>, ws: seq<Worker>, p: Post)
    requires Conserved(posts, ps, ws)
    ensures Conserved(posts + [p.handle], ps + [p], ws)
  {
    hide AllPushed, PostHandles;
    PostHandlesOneMore(ps, p);
    assert multiset(posts + [p.handle]) == multiset(posts) + multiset{p.handle};
    assert multiset(PostHandles(ps) + [p.handle]) == multiset(PostHandles(ps)) + multiset{p.handle};
  }

  lemma PickKeeps(s: State, h: Handle)
    requires Inv(s) && Enabled(s, Pick(h))
    ensures Inv(Step(s, Pick(h)))
  {
    hide Conserved, RoundRobin, WorkerInv, SeenIsChecked, SeenBySome, FlaggedSpared;
    ConservedAfterPick(s.posts, s.inflight, s.workers, Post(s.next % |s.workers|, h));
    RoundRobinAfterPick(|s.posts|, s.next, s.inflight, s.workers, h);
    SparedAfterPick(s, h);
  }

  /** Replacing worker `i` by one that satisfies what is asked of it. */
  lemma WindingAfterWorker(s: State, i: nat, w: Worker, t: State)
    requires Winding(s) && i < |s.workers| && t.workers == s.workers[i := w] && WorkerInv(w)
    requires t.stopping == s.stopping || (t.stopping && t.inflight == [])
    requires t.inflight == s.inflight || t.inflight == [] || !t.stopping
    requires w.done ==> t.stopping
    ensures Winding(t)
  {
    hide WorkerInv;
  }

  lemma SeenBySomeAfter(ws: seq<Worker>, i: nat, w: Worker, h: Handle)
    requires i < |ws| && SeenBySome(ws, h) && (h in Seen(ws[i]) ==> h in Seen(w))
    ensures SeenBySome(ws[i := w], h)
  {
    hide Seen;
    var j :| 0 <= j < |ws| && h in Seen(ws[j]);
    assert h in Seen(ws[i := w][j]);
  }

  /** A worker whose past is untouched can be replaced. */
  lemma FlagsAfterWorker(s: State, i: nat, w: Worker, t: State)
    requires FlagsStand(s) && i < |s.workers| && t.workers == s.workers[i := w]
    requires t.checked == s.checked && t.flagged == s.flagged && t.cancelled == s.cancelled
    requires w.pc == s.workers[i].pc && w.log == s.workers[i].log
    ensures FlagsStand(t)
  {
    hide HandlesOf, Decided, SeenBySome;
    forall h | h in t.checked ensures SeenBySome(t.workers, h) {
      SeenBySomeAfter(s.workers, i, w, h);
    }
    assert SeenIsChecked(s.workers[i], s.checked);
  }

  lemma SparedAfterWorker(s: State, i: nat, w: Worker, t: State)
    requires FlaggedSpared(s) && i < |s.workers| && t.workers == s.workers[i := w]
    requires t.flagged == s.flagged && t.posts == s.posts
    requires forall h | h in s.flagged && multiset(s.posts)[h] <= 1 && Spares(s.workers[i], h) :: Spares(w, h)
    ensures FlaggedSpared(t)
  {
    hide Spares;
    forall x, h | x in t.workers && h in t.flagged && multiset(t.posts)[h] <= 1 ensures Spares(x, h) {
      assert Spares(s.workers[i], h);
    }
  }

  lemma PushedInv(w: Worker, h: Handle)
    requires WorkerInv(w) && w.pc != Exited
    ensures WorkerInv(Pushed(w, h))
  {
    hide Seen;
    assert Seen(Pushed(w, h)) == Seen(w) by {
      SeenIgnoresQueue(w, h);
    }
  }

  lemma SeenIgnoresQueue(w: Worker, h: Handle)
    ensures Seen(Pushed(w, h)) == Seen(w)
  {
  }

  lemma NotExited(s: State, i: nat)
    requires Winding(s) && i < |s.workers| && s.inflight != []
    ensures s.workers[i].pc != Exited && !s.stopping && WorkerInv(s.workers[i]) && !s.workers[i].done
  {
    assert s.workers[i] in s.workers;
  }

  lemma PushKeeps(s: State, k: nat)
    requires Inv(s) && Enabled(s, Push(k))
    ensures Inv(Step(s, Push(k)))
  {
    hide Conserved, RoundRobin, Winding, FlagsStand, FlaggedSpared, WorkerInv, Without;
    var p := s.inflight[k];
    var w := Pushed(s.workers[p.worker], p.handle);
    var t := Step(s, Push(k));
    NotExited(s, p.worker);
    PushedInv(s.workers[p.worker], p.handle);
    ConservedAfterPush(s.posts, s.inflight, s.workers, k);
    RoundRobinAfterPush(|s.posts|, s.next, s.inflight, s.workers, k);
    WindingAfterWorker(s, p.worker, w, t);
    FlagsAfterWorker(s, p.worker, w, t);
    SparedAfterWorker(s, p.worker, w, t);
  }

  lemma CancelFlags(s: State, h: Handle)
    requires FlagsStand(s) && FlaggedSpared(s)
    ensures FlagsStand(Step(s, Cancel(h))) && FlaggedSpared(Step(s, Cancel(h)))
  {
    hide Seen, SeenBySome;
    var t := Step(s, Cancel(h));
    forall w, x | w in t.workers && x in t.flagged && multiset(t.posts)[x] <= 1 ensures Spares(w, x) {
      assert SeenIsChecked(w, s.checked);
      assert x in s.flagged ==> Spares(w, x);
      LoggedIsSeen(w);
    }
  }

  /** What is in the log, or about to be, has been checked. */
  lemma LoggedIsSeen(w: Worker)
    ensures forall d | d in w.log :: d.handle in Seen(w)
    ensures w.pc.Resuming? ==> w.pc.handle in Seen(w)
  {
    forall d | d in w.log ensures d.handle in HandlesOf(w.log) {
      var i :| 0 <= i < |w.log| && w.log[i] == d;
      assert HandlesOf(w.log)[i] == d.handle;
    }
  }

  lemma CancelKeeps(s: State, h: Handle)
    requires Inv(s)
    ensures Inv(Step(s, Cancel(h)))
  {
    hide Conserved, RoundRobin, FlagsStand, FlaggedSpared, WorkerInv;
    CancelFlags(s, h);
  }

  lemma StopKeeps(s: State, i: nat)
    requires Inv(s) && Enabled(s, Stop(i))
    ensures Inv(Step(s, Stop(i)))
  {
    hide Conserved, RoundRobin, Winding, FlagsStand, FlaggedSpared, WorkerInv;
    var w := s.workers[i].(done := true);
    var t := Step(s, Stop(i));
    StoppedInv(s, i);
    ConservedAfterWorker(s.posts, s.inflight, s.workers, i, w);
    RoundRobinAfterWorker(|s.posts|, s.next, s.inflight, s.workers, i, w);
    WindingAfterWorker(s, i, w, t);
    FlagsAfterWorker(s, i, w, t);
    SparedAfterWorker(s, i, w, t);
  }

  lemma StoppedInv(s: State, i: nat)
    requires Winding(s) && i < |s.workers|
    ensures WorkerInv(s.workers[i].(done := true))
  {
    var w := s.workers[i];
    assert w in s.workers;
    assert Seen(w.(done := true)) == Seen(w) && Unseen(w.(done := true)) == Unseen(w);
  }

  // ---- A worker's own step ----

  /** What one action of a worker does to what it has seen and to the flags. */
  lemma WorkSees(w: Worker, cancelled: set<Handle>)
    requires CanWork(w)
    ensures var (r, c) := Work(w, cancelled);
            (forall h :: h in Seen(r) <==> h in Seen(w) || h in CheckedBy(w))
            && (r.pc.Resumed? ==> r.pc.handle in Seen(w))
            && (forall h | h in cancelled && h !in c :: h in Seen(w) || (w.pc.Resumed? && h == w.pc.handle))
  {
    hide HandlesOf;
    LogOneMore(w.log, Handled(0, WasResumed));
    if w.pc.Destroying? || w.pc.Resuming? {
      LogOneMore(w.log, Handled(w.pc.handle, WasDestroyed));
      LogOneMore(w.log, Handled(w.pc.handle, WasResumed));
    }
  }

  lemma FlagsAfterWork(s: State, i: nat)
    requires FlagsStand(s) && Enabled(s, DoWork(i))
    ensures FlagsStand(Step(s, DoWork(i)))
  {
    hide Work, Seen, CheckedBy, SeenBySome, CanWork;
    var w, t := s.workers[i], Step(s, DoWork(i));
    var (r, c) := Work(w, s.cancelled);
    assert t.workers == s.workers[i := r] && t.cancelled == c;
    WorkSees(w, s.cancelled);
    assert SeenIsChecked(w, s.checked);
    assert SeenIsChecked(r, t.checked);
    forall x | x in t.workers ensures SeenIsChecked(x, t.checked) {
      assert x == r || SeenIsChecked(x, s.checked);
    }
    forall h | h in t.flagged && h !in t.checked ensures h in t.cancelled {
      assert h in s.cancelled;
    }
    forall h | h in t.checked ensures SeenBySome(t.workers, h) {
      if h in s.checked {
        SeenBySomeAfter(s.workers, i, r, h);
      } else {
        SeenByOne(t.workers, i, h);
      }
    }
  }

  lemma SeenByOne(ws: seq<Worker>, i: nat, h: Handle)
    requires i < |ws| && h in Seen(ws[i])
    ensures SeenBySome(ws, h)
  {
  }

  lemma {:induction false} AllPushedOne(ws: seq<Worker>, i: nat, h: Handle)
    requires i < |ws|
    ensures AllPushed(ws)[h] >= multiset(ws[i].pushed)[h]
  {
    if i > 0 {
      AllPushedOne(ws[1..], i - 1, h);
    }
  }

  lemma {:induction false} AllPushedTwo(ws: seq<Worker>, i: nat, j: nat, h: Handle)
    requires i < j < |ws|
    ensures AllPushed(ws)[h] >= multiset(ws[i].pushed)[h] + multiset(ws[j].pushed)[h]
  {
    if i > 0 {
      AllPushedTwo(ws[1..], i - 1, j - 1, h);
    } else {
      AllPushedOne(ws[1..], j - 1, h);
    }
  }

  lemma CountSplit(w: Worker, h: Handle)
    requires InOrder(w)
    ensures multiset(w.pushed)[h] >= (if h in Seen(w) then 1 else 0) + (if h in Unseen(w) then 1 else 0)
  {
    assert multiset(w.pushed)[h] == multiset(Seen(w))[h] + multiset(Unseen(w))[h];
  }

  lemma PushedOnce(s: State, h: Handle)
    requires multiset(s.posts)[h] <= 1 && Conserved(s.posts, s.inflight, s.workers)
    ensures AllPushed(s.workers)[h] <= 1
  {
    assert multiset(s.posts)[h] == multiset(PostHandles(s.inflight))[h] + AllPushed(s.workers)[h];
  }

  /** A handle posted once that waits for its check has not been checked before. */
  lemma UnseenIsUnchecked(s: State, i: nat, h: Handle)
    requires multiset(s.posts)[h] <= 1 && Conserved(s.posts, s.inflight, s.workers) && Winding(s) && FlagsStand(s)
    requires i < |s.workers| && h in Unseen(s.workers[i])
    ensures h !in s.checked
  {
    hide Seen, Unseen, AllPushed, PostHandles;
    assert s.workers[i] in s.workers;
    CountSplit(s.workers[i], h);
    PushedOnce(s, h);
    if h in s.checked {
      var j :| 0 <= j < |s.workers| && h in Seen(s.workers[j]);
      assert s.workers[j] in s.workers;
      CountSplit(s.workers[j], h);
      if i < j {
        AllPushedTwo(s.workers, i, j, h);
      } else if j < i {
        AllPushedTwo(s.workers, j, i, h);
      } else {
        AllPushedOne(s.workers, i, h);
      }
      assert false;
    }
  }

  lemma SparesAfterWork(w: Worker, cancelled: set<Handle>, h: Handle)
    requires CanWork(w) && Spares(w, h) && (w.pc == Busy(h) ==> h in cancelled)
    ensures Spares(Work(w, cancelled).0, h)
  {
  }

  lemma SparedAfterWork(s: State, i: nat)
    requires Conserved(s.posts, s.inflight, s.workers) && Winding(s) && FlagsStand(s)
    requires FlaggedSpared(s) && Enabled(s, DoWork(i))
    ensures FlaggedSpared(Step(s, DoWork(i)))
  {
    hide Work, Spares, Conserved, Winding, CanWork, FlaggedSpared;
    var w := s.workers[i];
    forall h | h in s.flagged && multiset(s.posts)[h] <= 1 && Spares(w, h)
      ensures Spares(Work(w, s.cancelled).0, h)
    {
      if w.pc == Busy(h) {
        assert h in Unseen(w);
        UnseenIsUnchecked(s, i, h);
      }
      SparesAfterWork(w, s.cancelled, h);
    }
    SparedAfterWorker(s, i, Work(w, s.cancelled).0, Step(s, DoWork(i)));
  }

  lemma WorkKeeps(s: State, i: nat)
    requires Inv(s) && Enabled(s, DoWork(i))
    ensures Inv(Step(s, DoWork(i)))
  {
    hide Conserved, RoundRobin, Winding, FlagsStand, FlaggedSpared, WorkerInv, Work, CanWork;
    var w, t := s.workers[i], Step(s, DoWork(i));
    var r := Work(w, s.cancelled).0;
    WorkerOf(s, i);
    WorkKeepsWorker(w, s.cancelled);
    ConservedAfterWorker(s.posts, s.inflight, s.workers, i, r);
    RoundRobinAfterWorker(|s.posts|, s.next, s.inflight, s.workers, i, r);
    WindingAfterWorker(s, i, r, t);
    FlagsAfterWork(s, i);
    SparedAfterWork(s, i);
  }

  lemma WorkerOf(s: State, i: nat)
    requires Winding(s) && i < |s.workers|
    ensures WorkerInv(s.workers[i]) && (s.workers[i].done ==> s.stopping)
  {
    assert s.workers[i] in s.workers;
  }

  lemma StepKeeps(s: State, e: Event)
    requires Inv(s) && Enabled(s, e)
    ensures Inv(Step(s, e))
  {
    hide Inv, Step;
    match e
    case Pick(h) => PickKeeps(s, h);
    case Push(k) => PushKeeps(s, k);
    case Cancel(h) => CancelKeeps(s, h);
    case Stop(w) => StopKeeps(s, w);
    case DoWork(w) => WorkKeeps(s, w);
  }

  lemma {:induction false} AllPushedFresh(n: nat)
    ensures AllPushed(seq(n, _ => FreshWorker())) == multiset{}
  {
    if n > 0 {
      AllPushedFresh(n - 1);
      assert seq(n, _ => FreshWorker())[1..] == seq(n - 1, _ => FreshWorker());
    }
  }

  lemma FreshWorkers(n: nat)
    ensures var s := Initial(n);
            Winding(s) && FlagsStand(s) && FlaggedSpared(s) && RoundRobin(0, s.next, s.inflight, s.workers)
  {
    var s := Initial(n);
    forall w | 0 <= w < |s.workers| ensures HasShare(0, s.inflight, s.workers, w) {
      assert s.workers[w] == FreshWorker();
    }
    forall w | w in s.workers ensures w == FreshWorker() {
    }
  }

  lemma NothingPosted(n: nat)
    ensures Conserved([], [], Initial(n).workers)
  {
    AllPushedFresh(n);
    assert PostHandles([]) == [];
  }

  lemma InitialInv(n: nat)
    ensures Inv(Initial(n))
  {
    hide Winding, FlagsStand, FlaggedSpared, RoundRobin, Conserved;
    FreshWorkers(n);
    NothingPosted(n);
  }

  /** Over every interleaving the invariant holds. */
  lemma {:induction false} RunsKeep(s: State, es: seq<Event>, t: State)
    requires Inv(s) && Runs(s, es, t)
    ensures Inv(t)
    decreases |es|
  {
    hide Inv, Step;
    if es != [] {
      StepKeeps(s, es[0]);
      RunsKeep(Step(s, es[0]), es[1..], t);
    }
  }

  // ---- What that means for a run ----

  /** The handles posted in a run, in the order of their counter fetches. */
  function PostsOf(es: seq<Event>): seq<Handle> {
    if es == [] then [] else (if es[0].Pick? then [es[0].handle] else []) + PostsOf(es[1..])
  }

  lemma {:induction false} PostsAreRecorded(s: State, es: seq<Event>, t: State)
    requires Runs(s, es, t)
    ensures t.posts == s.posts + PostsOf(es) && |t.workers| == |s.workers|
    decreases |es|
  {
    if es != [] {
      PostsAreRecorded(Step(s, es[0]), es[1..], t);
      var first := if es[0].Pick? then [es[0].handle] else [];
      assert Step(s, es[0]).posts == s.posts + first;
      assert s.posts + first + PostsOf(es[1..]) == s.posts + (first + PostsOf(es[1..]));
    }
  }

  lemma Reachable(n: nat, es: seq<Event>, t: State)
    requires Runs(Initial(n), es, t)
    ensures Inv(t) && t.posts == PostsOf(es) && |t.workers| == n
  {
    hide Inv;
    InitialInv(n);
    RunsKeep(Initial(n), es, t);
    PostsAreRecorded(Initial(n), es, t);
  }

  lemma WorkerBalances(w: Worker)
    requires WorkerInv(w)
    ensures w.pushed == HandlesOf(w.log) + Decided(w.pc) + Unchecked(w.pc) + w.queue
    ensures |w.pushed| == |w.queue| + InHand(w.pc) + w.completed
    ensures w.pc == Exited ==> w.queue == []
  {
    WorkerCounts(w);
    assert Seen(w) + Unseen(w) == HandlesOf(w.log) + Decided(w.pc) + Unchecked(w.pc) + w.queue;
  }

  /**
   In every reachable state, for each worker: what was pushed to it is, in order, what it disposed of, the
   handle in its hand and its queue; in numbers, its queue, its hand and its completed count.
   */
  lemma WorkerConserves(n: nat, es: seq<Event>, t: State, i: nat)
    requires Runs(Initial(n), es, t) && i < n
    ensures |t.workers| == n
    ensures var w := t.workers[i];
            w.pushed == HandlesOf(w.log) + Decided(w.pc) + Unchecked(w.pc) + w.queue
            && |w.pushed| == |w.queue| + InHand(w.pc) + w.completed
            && (w.pc == Exited ==> w.queue == [])
  {
    hide Conserved, RoundRobin, FlagsStand, FlaggedSpared, WorkerInv;
    Reachable(n, es, t);
    WorkerOf(t, i);
    WorkerBalances(t.workers[i]);
  }

  lemma {:induction false} ExitedHandledAll(ws: seq<Worker>)
    requires forall w | w in ws :: WorkerInv(w) && w.pc == Exited
    ensures AllHandled(ws) == AllPushed(ws)
  {
    if ws != [] {
      assert ws[0] in ws;
      assert ws[0].pushed == HandlesOf(ws[0].log);
      ExitedHandledAll(ws[1..]);
    }
  }

  lemma {:induction false} FlaggedGrows(s: State, es: seq<Event>, t: State)
    requires Runs(s, es, t)
    ensures s.flagged <= t.flagged
    decreases |es|
  {
    if es != [] {
      FlaggedGrows(Step(s, es[0]), es[1..], t);
    }
  }

  lemma FlaggedIsSpared(s: State, h: Handle, i: nat, d: Handled)
    requires FlaggedSpared(s) && h in s.flagged && multiset(s.posts)[h] <= 1
    requires i < |s.workers| && d in s.workers[i].log && d.handle == h
    ensures d.fate == WasDestroyed
  {
    assert Spares(s.workers[i], h);
  }

  /**
   A handle cancelled before any worker has checked it, and posted no more than once, is never resumed: all
   that a worker can do with it is destroy it. Other handles may be posted as often as they like.
   */
  lemma CancelledInTime(n: nat, before: seq<Event>, s: State, h: Handle, after: seq<Event>, t: State, i: nat,
      d: Handled)
    requires Runs(Initial(n), before, s) && h !in s.checked && Runs(Step(s, Cancel(h)), after, t)
    requires multiset(PostsOf(before) + PostsOf(after))[h] <= 1
    requires i < |t.workers| && d in t.workers[i].log && d.handle == h
    ensures d.fate == WasDestroyed
  {
    hide Conserved, RoundRobin, Winding, FlagsStand, FlaggedSpared;
    var s' := Step(s, Cancel(h));
    Reachable(n, before, s);
    CancelKeeps(s, h);
    RunsKeep(s', after, t);
    PostsAreRecorded(s', after, t);
    FlaggedGrows(s', after, t);
    FlaggedIsSpared(t, h, i, d);
  }

  /** Until the 64-bit counter wraps, the posts are shared out evenly, the first workers taking the odd ones. */
  lemma SharedEvenly(n: nat, es: seq<Event>, t: State, i: nat)
    requires Runs(Initial(n), es, t) && i < n && |PostsOf(es)| <= TWO_64
    ensures |t.workers| == n
    ensures var k := |PostsOf(es)|;
            |t.workers[i].pushed| + CountTo(t.inflight, i) == k / n + (if i < k % n then 1 else 0)
  {
    hide Conserved, Winding, FlagsStand, FlaggedSpared;
    Reachable(n, es, t);
    assert HasShare(|t.posts|, t.inflight, t.workers, i);
    AssignedEvenly(|t.posts|, n, i);
  }
}
