/**
 The IPC endpoint as a state machine: each locked section of the code is one step, and receivers, senders and
 closers interleave freely. `R` identifies a receive operation.
 */
module EndpointSpec {
  import opened Bytes
  import opened Wrappers

  datatype Tag = Tag(ns: U16, op: U16)

  datatype Message = Message(tag: Tag, payload: seq<Byte>, cap: Option<Word>)

  /** What a default-constructed message holds. */
  const NO_MESSAGE: Message := Message(Tag(0, 0), [], None)

  /**
   Where a receive operation stands: it found the queue empty, it is parked, it has its message, or the
   endpoint closed on it.
   */
  datatype Phase = Checked | Parked | Got(message: Message) | Empty

  /** A message handed out: to a receive operation, or to a caller of try_recv. */
  datatype Delivery<R> = Delivery(to: Option<R>, message: Message)

  /**
   Queue, parked receivers and closed flag, with the history: messages sent, accepted and dropped, deliveries,
   and the receivers ever parked and woken, each in order.
   */
  datatype State<R> = State(
    queue: seq<Message>,
    waiters: seq<R>,
    closed: bool,
    phases: map<R, Phase>,
    sent: seq<Message>,
    accepted: seq<Message>,
    dropped: seq<Message>,
    deliveries: seq<Delivery<R>>,
    parked: seq<R>,
    woken: seq<R>)

  function Initial<R>(): State<R> {
    State([], [], false, map[], [], [], [], [], [], [])
  }

  // ---- The steps ----

  /** send_nowait: to the longest-parked receiver, else to the queue, else, once closed, nowhere. */
  function Send<R>(s: State<R>, m: Message): State<R> {
    if s.waiters != [] then
      var r := s.waiters[0];
      s.(waiters := s.waiters[1..], phases := s.phases[r := Got(m)], sent := s.sent + [m],
         accepted := s.accepted + [m], deliveries := s.deliveries + [Delivery(Some(r), m)], woken := s.woken + [r])
    else if !s.closed then
      s.(queue := s.queue + [m], sent := s.sent + [m], accepted := s.accepted + [m])
    else
      s.(sent := s.sent + [m], dropped := s.dropped + [m])
  }

  /** The head of the queue goes to `to`. */
  function Take<R>(s: State<R>, to: Option<R>): State<R>
    requires s.queue != []
  {
    s.(queue := s.queue[1..], deliveries := s.deliveries + [Delivery(to, s.queue[0])])
  }

  function WithPhase<R>(s: State<R>, r: R, p: Phase): State<R> {
    s.(phases := s.phases[r := p])
  }

  /** await_ready: the fast path of a receive operation. */
  function Ready<R>(s: State<R>, r: R): State<R> {
    if s.queue == [] then WithPhase(s, r, Checked)
    else WithPhase(Take(s, Some(r)), r, Got(s.queue[0]))
  }

  /** await_suspend: looks again, then gives up if closed, then parks. */
  function Suspend<R>(s: State<R>, r: R): State<R> {
    if s.queue != [] then WithPhase(Take(s, Some(r)), r, Got(s.queue[0]))
    else if s.closed then WithPhase(s, r, Empty)
    else WithPhase(s.(waiters := s.waiters + [r], parked := s.parked + [r]), r, Parked)
  }

  function TryTake<R>(s: State<R>): State<R> {
    if s.queue == [] then s else Take(s, None)
  }

  function AllEmpty<R>(rs: seq<R>): map<R, Phase> {
    map r | r in rs :: Empty
  }

  /** close: every parked receiver wakes with nothing; queued messages stay. */
  function Close<R>(s: State<R>): State<R> {
    s.(closed := true, waiters := [], phases := s.phases + AllEmpty(s.waiters), woken := s.woken + s.waiters)
  }

  datatype Event<R> = DoSend(message: Message) | DoReady(who: R) | DoSuspend(who: R) | DoTryRecv | DoClose

  /** A receive operation checks once, and suspends only after its check found nothing. */
  predicate Enabled<R(==)>(s: State<R>, e: Event<R>) {
    match e
    case DoReady(r) => r !in s.phases
    case DoSuspend(r) => r in s.phases && s.phases[r] == Checked
    case _ => true
  }

  function Step<R>(s: State<R>, e: Event<R>): State<R> {
    match e
    case DoSend(m) => Send(s, m)
    case DoReady(r) => Ready(s, r)
    case DoSuspend(r) => Suspend(s, r)
    case DoTryRecv => TryTake(s)
    case DoClose => Close(s)
  }

  ghost predicate Runs<R>(s: State<R>, es: seq<Event<R>>, t: State<R>)
    decreases |es|
  {
    if es == [] then t == s else Enabled(s, es[0]) && Runs(Step(s, es[0]), es[1..], t)
  }

  // ---- What every reachable state satisfies ----

  function Messages<R>(ds: seq<Delivery<R>>): (ms: seq<Message>)
    ensures |ms| == |ds|
  {
    seq(|ds|, i requires 0 <= i < |ds| => ds[i].message)
  }

  /** Accepted messages are delivered in the order of acceptance, each once, and the rest are the queue. */
  ghost predicate Fifo<R>(s: State<R>) {
    s.accepted == Messages(s.deliveries) + s.queue
  }

  /** Nothing is dropped before close, and nothing accepted after. */
  ghost predicate DropsAfterClose<R>(s: State<R>) {
    s.sent == s.accepted + s.dropped && (s.dropped != [] ==> s.closed)
  }

  /** Nobody waits while there is something to take or nothing more to come. */
  ghost predicate NobodyForgotten<R>(s: State<R>) {
    (s.queue != [] ==> s.waiters == []) && (s.closed ==> s.waiters == [])
  }

  /** Receivers wake in the order in which they parked. */
  ghost predicate ParkOrder<R>(s: State<R>) {
    s.parked == s.woken + s.waiters
  }

  predicate Once<R(==)>(rs: seq<R>) {
    forall i, j | 0 <= i < j < |rs| :: rs[i] != rs[j]
  }

  /** The receivers that have parked are distinct, and those still waiting are the ones in the parked phase. */
  ghost predicate PhasesMatch<R>(phases: map<R, Phase>, parked: seq<R>, waiters: seq<R>) {
    && Once(parked)
    && (forall r | r in parked :: r in phases && phases[r] != Checked)
    && (forall r | r in waiters :: r in phases && phases[r] == Parked)
    && (forall r | r in phases && phases[r] == Parked :: r in waiters)
  }

  /** A receive operation gets at most one message, the one its phase records. */
  ghost predicate OneEach<R>(phases: map<R, Phase>, deliveries: seq<Delivery<R>>) {
    && (forall i, j | 0 <= i < j < |deliveries| && deliveries[i].to.Some? :: deliveries[i].to != deliveries[j].to)
    && (forall d | d in deliveries && d.to.Some? ::
          d.to.value in phases && phases[d.to.value] == Got(d.message))
    && (forall r | r in phases && phases[r].Got? :: Delivery(Some(r), phases[r].message) in deliveries)
  }

  /** A receive operation ends without a message only on a closed endpoint. */
  ghost predicate EmptyOnlyClosed<R>(phases: map<R, Phase>, closed: bool) {
    forall r | r in phases && phases[r] == Empty :: closed
  }

  ghost predicate Inv<R>(s: State<R>) {
    && Fifo(s) && DropsAfterClose(s) && NobodyForgotten(s) && ParkOrder(s)
    && PhasesMatch(s.phases, s.parked, s.waiters)
    && OneEach(s.phases, s.deliveries)
    && EmptyOnlyClosed(s.phases, s.closed)
  }

  lemma MessagesOneMore<R>(ds: seq<Delivery<R>>, d: Delivery<R>)
    ensures Messages(ds + [d]) == Messages(ds) + [d.message]
  {
  }

  lemma FifoAfterTake<R>(s: State<R>, to: Option<R>)
    requires Fifo(s) && s.queue != []
    ensures Fifo(Take(s, to))
  {
    hide Messages;
    MessagesOneMore(s.deliveries, Delivery(to, s.queue[0]));
    assert s.queue == [s.queue[0]] + s.queue[1..];
  }

  lemma FifoAfterSend<R>(s: State<R>, m: Message)
    requires Fifo(s) && NobodyForgotten(s)
    ensures Fifo(Send(s, m))
  {
    hide Messages;
    if s.waiters != [] {
      MessagesOneMore(s.deliveries, Delivery(Some(s.waiters[0]), m));
    }
  }

  /** Delivering to a receiver that has no message yet. */
  lemma OneEachAfterDelivery<R>(phases: map<R, Phase>, ds: seq<Delivery<R>>, r: R, m: Message)
    requires OneEach(phases, ds) && (r in phases ==> !phases[r].Got?)
    ensures OneEach(phases[r := Got(m)], ds + [Delivery(Some(r), m)])
  {
    var d := Delivery(Some(r), m);
    forall i | 0 <= i < |ds| && ds[i].to.Some? ensures ds[i].to != d.to {
      assert ds[i] in ds;
    }
    assert d in ds + [d];
  }

  lemma OneEachAfterPhase<R>(phases: map<R, Phase>, ds: seq<Delivery<R>>, r: R, p: Phase)
    requires OneEach(phases, ds) && (r in phases ==> !phases[r].Got?) && !p.Got?
    ensures OneEach(phases[r := p], ds)
  {
  }

  lemma OneEachAfterTryTake<R>(phases: map<R, Phase>, ds: seq<Delivery<R>>, m: Message)
    requires OneEach(phases, ds)
    ensures OneEach(phases, ds + [Delivery(None, m)])
  {
    var d: Delivery<R> := Delivery(None, m);
    forall r | r in phases && phases[r].Got? ensures Delivery(Some(r), phases[r].message) in ds + [d] {
      assert Delivery(Some(r), phases[r].message) in ds;
    }
  }

  lemma OneEachAfterClose<R>(phases: map<R, Phase>, ds: seq<Delivery<R>>, rs: seq<R>)
    requires OneEach(phases, ds) && forall r | r in rs :: r in phases && !phases[r].Got?
    ensures OneEach(phases + AllEmpty(rs), ds)
  {
  }

  /** A receiver that is not waiting changes to a phase other than parked. */
  lemma PhasesAfterChange<R>(phases: map<R, Phase>, parked: seq<R>, waiters: seq<R>, r: R, p: Phase)
    requires PhasesMatch(phases, parked, waiters) && r !in waiters && p != Parked
    requires r in parked ==> p != Checked
    ensures PhasesMatch(phases[r := p], parked, waiters)
  {
  }

  lemma PhasesAfterPark<R>(phases: map<R, Phase>, parked: seq<R>, waiters: seq<R>, r: R)
    requires PhasesMatch(phases, parked, waiters) && r in phases && phases[r] == Checked
    ensures PhasesMatch(phases[r := Parked], parked + [r], waiters + [r])
  {
  }

  lemma PhasesAfterHandover<R>(phases: map<R, Phase>, parked: seq<R>, woken: seq<R>, waiters: seq<R>, m: Message)
    requires PhasesMatch(phases, parked, waiters) && parked == woken + waiters && waiters != []
    ensures PhasesMatch(phases[waiters[0] := Got(m)], parked, waiters[1..])
  {
    assert waiters == [waiters[0]] + waiters[1..];
    forall r | r in waiters[1..] ensures r != waiters[0] {
      var k :| 0 <= k < |waiters[1..]| && waiters[1..][k] == r;
      assert parked[|woken|] == waiters[0] && parked[|woken| + 1 + k] == r;
    }
  }

  lemma PhasesAfterClose<R>(phases: map<R, Phase>, parked: seq<R>, waiters: seq<R>)
    requires PhasesMatch(phases, parked, waiters)
    ensures PhasesMatch(phases + AllEmpty(waiters), parked, [])
  {
  }

  lemma SendKeeps<R>(s: State<R>, m: Message)
    requires Inv(s)
    ensures Inv(Send(s, m))
  {
    hide OneEach, PhasesMatch, Fifo;
    FifoAfterSend(s, m);
    if s.waiters != [] {
      var r := s.waiters[0];
      HeadIsParked(s);
      OneEachAfterDelivery(s.phases, s.deliveries, r, m);
      PhasesAfterHandover(s.phases, s.parked, s.woken, s.waiters, m);
      assert s.waiters == [r] + s.waiters[1..];
    }
  }

  lemma HeadIsParked<R>(s: State<R>)
    requires PhasesMatch(s.phases, s.parked, s.waiters) && s.waiters != []
    ensures s.waiters[0] in s.phases && s.phases[s.waiters[0]] == Parked
  {
    assert s.waiters[0] in s.waiters;
  }

  lemma NewcomerIsNowhere<R>(s: State<R>, r: R)
    requires PhasesMatch(s.phases, s.parked, s.waiters)
    ensures r !in s.phases || s.phases[r] == Checked ==> r !in s.parked && r !in s.waiters
  {
  }

  lemma ReadyKeeps<R>(s: State<R>, r: R)
    requires Inv(s) && r !in s.phases
    ensures Inv(Ready(s, r))
  {
    hide OneEach, PhasesMatch, Fifo;
    NewcomerIsNowhere(s, r);
    if s.queue == [] {
      FifoIgnoresPhases(s, r, Checked);
      OneEachAfterPhase(s.phases, s.deliveries, r, Checked);
      PhasesAfterChange(s.phases, s.parked, s.waiters, r, Checked);
    } else {
      TakeKeeps(s, r);
    }
  }

  lemma FifoIgnoresPhases<R>(s: State<R>, r: R, p: Phase)
    ensures Fifo(s) ==> Fifo(WithPhase(s, r, p))
  {
  }

  lemma TakeKeeps<R>(s: State<R>, r: R)
    requires Inv(s) && s.queue != [] && (r !in s.phases || s.phases[r] == Checked)
    ensures Inv(WithPhase(Take(s, Some(r)), r, Got(s.queue[0])))
  {
    hide OneEach, PhasesMatch, Fifo;
    NewcomerIsNowhere(s, r);
    FifoAfterTake(s, Some(r));
    FifoIgnoresPhases(Take(s, Some(r)), r, Got(s.queue[0]));
    OneEachAfterDelivery(s.phases, s.deliveries, r, s.queue[0]);
    PhasesAfterChange(s.phases, s.parked, s.waiters, r, Got(s.queue[0]));
  }

  lemma SuspendKeeps<R>(s: State<R>, r: R)
    requires Inv(s) && r in s.phases && s.phases[r] == Checked
    ensures Inv(Suspend(s, r))
  {
    hide OneEach, PhasesMatch, Fifo;
    NewcomerIsNowhere(s, r);
    if s.queue != [] {
      TakeKeeps(s, r);
    } else if s.closed {
      FifoIgnoresPhases(s, r, Empty);
      OneEachAfterPhase(s.phases, s.deliveries, r, Empty);
      PhasesAfterChange(s.phases, s.parked, s.waiters, r, Empty);
    } else {
      FifoIgnoresParking(s, r);
      OneEachAfterPhase(s.phases, s.deliveries, r, Parked);
      PhasesAfterPark(s.phases, s.parked, s.waiters, r);
      assert s.woken + (s.waiters + [r]) == s.woken + s.waiters + [r];
    }
  }

  lemma FifoIgnoresParking<R>(s: State<R>, r: R)
    requires Fifo(s) && s.queue == [] && !s.closed
    ensures Fifo(Suspend(s, r))
  {
  }

  lemma TryTakeKeeps<R>(s: State<R>)
    requires Inv(s)
    ensures Inv(TryTake(s))
  {
    hide OneEach, PhasesMatch, Fifo;
    if s.queue != [] {
      FifoAfterTake(s, None);
      OneEachAfterTryTake(s.phases, s.deliveries, s.queue[0]);
    }
  }

  lemma CloseKeeps<R>(s: State<R>)
    requires Inv(s)
    ensures Inv(Close(s))
  {
    hide OneEach, Messages;
    OneEachAfterClose(s.phases, s.deliveries, s.waiters);
    PhasesAfterClose(s.phases, s.parked, s.waiters);
    assert s.woken + s.waiters + [] == s.woken + s.waiters;
  }

  lemma StepKeeps<R>(s: State<R>, e: Event<R>)
    requires Inv(s) && Enabled(s, e)
    ensures Inv(Step(s, e))
  {
    hide Inv, Send, Ready, Suspend, TryTake, Close;
    match e
    case DoSend(m) => SendKeeps(s, m);
    case DoReady(r) => ReadyKeeps(s, r);
    case DoSuspend(r) => SuspendKeeps(s, r);
    case DoTryRecv => TryTakeKeeps(s);
    case DoClose => CloseKeeps(s);
  }

  lemma InitialInv<R>()
    ensures Inv<R>(Initial())
  {
  }

  /** Over every interleaving from a fresh endpoint the invariant holds. */
  lemma {:induction false} RunsKeep<R>(s: State<R>, es: seq<Event<R>>, t: State<R>)
    requires Inv(s) && Runs(s, es, t)
    ensures Inv(t)
    decreases |es|
  {
    hide Inv, Step;
    if es != [] {
      StepKeeps(s, es[0]);
      RunsKeep(Step(s, es[0]), es[1..], t);
    }
  }

  /** The messages of the sends in a run, in order. */
  function SendsOf<R>(es: seq<Event<R>>): seq<Message> {
    if es == [] then []
    else (match es[0] case DoSend(m) => [m] case _ => []) + SendsOf(es[1..])
  }

  lemma {:induction false} SentAreSends<R>(s: State<R>, es: seq<Event<R>>, t: State<R>)
    requires Runs(s, es, t)
    ensures t.sent == s.sent + SendsOf(es)
    decreases |es|
  {
    if es != [] {
      SentAreSends(Step(s, es[0]), es[1..], t);
      assert Step(s, es[0]).sent == s.sent + (match es[0] case DoSend(m) => [m] case _ => []);
    }
  }

  /** What the try_recv calls of a run return, leaving out those that return nothing. */
  function TriedOf<R>(s: State<R>, es: seq<Event<R>>): seq<Message>
    decreases |es|
  {
    if es == [] then []
    else (if es[0].DoTryRecv? && s.queue != [] then [s.queue[0]] else []) + TriedOf(Step(s, es[0]), es[1..])
  }

  /** The messages delivered to callers of try_recv. */
  function ToNobody<R>(ds: seq<Delivery<R>>): seq<Message> {
    if ds == [] then []
    else
      var last := |ds| - 1;
      ToNobody(ds[..last]) + if ds[last].to == None then [ds[last].message] else []
  }

  lemma ToNobodyOneMore<R>(ds: seq<Delivery<R>>, d: Delivery<R>)
    ensures ToNobody(ds + [d]) == ToNobody(ds) + if d.to == None then [d.message] else []
  {
    assert (ds + [d])[..|ds|] == ds;
  }

  lemma StepTries<R>(s: State<R>, e: Event<R>)
    requires Enabled(s, e)
    ensures ToNobody(Step(s, e).deliveries)
            == ToNobody(s.deliveries) + if e.DoTryRecv? && s.queue != [] then [s.queue[0]] else []
  {
    hide ToNobody;
    match e
    case DoSend(m) =>
      if s.waiters != [] { ToNobodyOneMore(s.deliveries, Delivery(Some(s.waiters[0]), m)); }
    case DoReady(r) =>
      if s.queue != [] { ToNobodyOneMore(s.deliveries, Delivery(Some(r), s.queue[0])); }
    case DoSuspend(r) =>
      if s.queue != [] { ToNobodyOneMore(s.deliveries, Delivery(Some(r), s.queue[0])); }
    case DoTryRecv =>
      if s.queue != [] { ToNobodyOneMore(s.deliveries, Delivery(None, s.queue[0])); }
    case DoClose =>
  }

  /** What try_recv callers were handed is what was delivered to them, in order. */
  lemma {:induction false} TriesAreDeliveries<R>(s: State<R>, es: seq<Event<R>>, t: State<R>)
    requires Runs(s, es, t)
    ensures ToNobody(t.deliveries) == ToNobody(s.deliveries) + TriedOf(s, es)
    decreases |es|
  {
    hide Step, Enabled, ToNobody;
    if es != [] {
      StepTries(s, es[0]);
      TriesAreDeliveries(Step(s, es[0]), es[1..], t);
    }
  }

  // ---- Closing ----

  /** The events before the first close, and those after it. */
  function BeforeClose<R>(es: seq<Event<R>>): seq<Event<R>> {
    if es == [] || es[0].DoClose? then [] else [es[0]] + BeforeClose(es[1..])
  }

  function AfterClose<R>(es: seq<Event<R>>): seq<Event<R>> {
    if es == [] then [] else if es[0].DoClose? then es[1..] else AfterClose(es[1..])
  }

  lemma StepCloses<R>(s: State<R>, e: Event<R>)
    requires Enabled(s, e) && NobodyForgotten(s)
    ensures Step(s, e).closed <==> s.closed || e.DoClose?
    ensures Step(s, e).dropped == s.dropped + if s.closed && e.DoSend? then [e.message] else []
    ensures Step(s, e).accepted == s.accepted + if !s.closed && e.DoSend? then [e.message] else []
  {
  }

  lemma SendsOfFirst<R>(es: seq<Event<R>>)
    requires es != []
    ensures SendsOf(es) == (if es[0].DoSend? then [es[0].message] else []) + SendsOf(es[1..])
    ensures !es[0].DoClose? ==>
              SendsOf(BeforeClose(es))
              == (if es[0].DoSend? then [es[0].message] else []) + SendsOf(BeforeClose(es[1..]))
    ensures es[0].DoClose? ==> BeforeClose(es) == [] && AfterClose(es) == es[1..]
    ensures !es[0].DoClose? ==> AfterClose(es) == AfterClose(es[1..])
    ensures DoClose in es <==> es[0].DoClose? || DoClose in es[1..]
  {
    assert es == [es[0]] + es[1..];
    if !es[0].DoClose? {
      assert BeforeClose(es)[1..] == BeforeClose(es[1..]);
    }
  }

  /** Closing is for good; it divides the sends into those accepted and those dropped. */
  lemma {:induction false} CloseDivides<R>(s: State<R>, es: seq<Event<R>>, t: State<R>)
    requires Inv(s) && Runs(s, es, t)
    ensures t.closed <==> s.closed || DoClose in es
    ensures t.dropped == s.dropped + SendsOf(if s.closed then es else AfterClose(es))
    ensures t.accepted == s.accepted + SendsOf(if s.closed then [] else BeforeClose(es))
    decreases |es|
  {
    hide Inv, Step, SendsOf, Enabled, BeforeClose, AfterClose;
    if es == [] {
      NoSends<R>();
    } else {
      ForgetsNobody(s);
      StepCloses(s, es[0]);
      StepKeeps(s, es[0]);
      CloseDivides(Step(s, es[0]), es[1..], t);
      SendsOfFirst(es);
      NoSends<R>();
    }
  }

  lemma NoSends<R>()
    ensures SendsOf<R>([]) == [] && BeforeClose<R>([]) == [] && AfterClose<R>([]) == []
  {
  }

  lemma ForgetsNobody<R>(s: State<R>)
    requires Inv(s)
    ensures NobodyForgotten(s)
  {
  }

  /**
   Exactly once and in order: over a run, the messages sent before the first close are those delivered followed
   by those still queued, and the ones sent after it are dropped. What try_recv callers were handed is their part
   of the deliveries, and a receive operation gets at most one message, the one its phase records.
   */
  lemma ExactlyOnceInOrder<R>(es: seq<Event<R>>, t: State<R>)
    requires Runs(Initial(), es, t)
    ensures SendsOf(es) == Messages(t.deliveries) + t.queue + t.dropped
    ensures SendsOf(BeforeClose(es)) == Messages(t.deliveries) + t.queue && SendsOf(AfterClose(es)) == t.dropped
    ensures ToNobody(t.deliveries) == TriedOf(Initial<R>(), es)
    ensures t.closed <==> DoClose in es
    ensures t.dropped != [] ==> t.closed
    ensures t.parked == t.woken + t.waiters
    ensures t.queue != [] || t.closed ==> t.waiters == []
    ensures OneEach(t.phases, t.deliveries)
    ensures forall r | r in t.phases && t.phases[r] == Empty :: t.closed
  {
    hide Step, SendsOf, OneEach, PhasesMatch, TriedOf, BeforeClose, AfterClose;
    InitialInv<R>();
    RunsKeep(Initial(), es, t);
    SentAreSends(Initial(), es, t);
    TriesAreDeliveries(Initial(), es, t);
    CloseDivides(Initial(), es, t);
  }
}
