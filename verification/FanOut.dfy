/** The fan-out of one gate request to all backends and the fan-in of their replies
    (internal/cmd-index-gate/service.go): a queue of targets, workers that call the backends, one channel for
    each worker, one consumer for each channel, and a closer that waits for the consumers. The goroutines
    are a state machine; each action is one step of one of them, in any interleaving. */
module FanOut {
  import opened ByteOrder
  import opened GateMerge
  import opened IndexStore
  import opened IndexGate
  import opened Sums

  datatype Msg<T> = Msg(addr: string, reply: T)

  datatype Worker<T> = Idle | Calling(addr: string) | Sending(msg: Msg<T>) | Closed
  datatype Consumer<T> = Waiting | Holding(msg: Msg<T>) | Finished

  /** A worker, what its channel buffers, and the consumer of that channel. The channel is closed when the
      worker is. */
  datatype Lane<T> = Lane(worker: Worker<T>, buf: seq<Msg<T>>, consumer: Consumer<T>)

  datatype Phase = Feeding | Draining | Returned

  /** The request handler has still to feed `targets`; the input channel holds `queue` and is closed unless
      the handler is feeding; `wg` is the wait group of the consumers. */
  datatype State<T> = State(phase: Phase, targets: seq<string>, queue: seq<string>, lanes: seq<Lane<T>>,
                            wg: int, outClosed: bool, received: seq<Msg<T>>)

  /** A request: its targets, what each would answer, the places of the input channel, the number of workers
      and the capacity of their channels. `Put` and `Delete` hold the lock of the backends, so that their input
      channel has a place for each target; `Get` and `List` do not, and theirs may be smaller. */
  datatype Request<!T> = Request(targets: seq<string>, answer: string -> T, inputs: nat, workers: nat, capacity: nat)

  /** How many targets the goroutines can hold before the handler receives a reply: those queued, and for each
      worker one it sends, those buffered, and one its consumer holds. */
  function Room<T>(q: Request<T>): nat {
    q.inputs + q.workers * (q.capacity + 2)
  }

  ghost function Init<T>(q: Request<T>): State<T> {
    State(Feeding, q.targets, [], seq(q.workers, _ => Lane(Idle, [], Waiting)), q.workers, false, [])
  }

  datatype Action =
    | Feed | CloseIn
    | FeedTo(w: nat) | Take(w: nat) | Reply(w: nat) | Push(w: nat) | Handoff(w: nat) | Pop(w: nat) | Retire(w: nat)
    | Deliver(w: nat) | Finish(w: nat)
    | CloseOut | Return

  predicate OnLane(a: Action) {
    a.FeedTo? || a.Take? || a.Reply? || a.Push? || a.Handoff? || a.Pop? || a.Retire? || a.Deliver? || a.Finish?
  }

  ghost predicate LaneEnabled<T>(q: Request<T>, s: State<T>, a: Action, l: Lane<T>)
    requires OnLane(a)
  {
    match a
    case FeedTo(_) => l.worker.Idle? && s.queue == [] && s.phase.Feeding? && s.targets != []
    case Take(_) => l.worker.Idle? && s.queue != []
    case Reply(_) => l.worker.Calling?
    case Push(_) => l.worker.Sending? && |l.buf| < q.capacity
    case Handoff(_) => l.worker.Sending? && l.buf == [] && l.consumer.Waiting?
    case Pop(_) => l.buf != [] && l.consumer.Waiting?
    case Retire(_) => l.worker.Idle? && s.queue == [] && !s.phase.Feeding?
    case Deliver(_) => l.consumer.Holding? && s.phase.Draining?
    case Finish(_) => l.consumer.Waiting? && l.buf == [] && l.worker.Closed?
  }

  ghost function LaneNext<T>(q: Request<T>, s: State<T>, a: Action, l: Lane<T>): Lane<T>
    requires OnLane(a) && LaneEnabled(q, s, a, l)
  {
    match a
    case FeedTo(_) => l.(worker := Calling(s.targets[0]))
    case Take(_) => l.(worker := Calling(s.queue[0]))
    case Reply(_) => l.(worker := Sending(Msg(l.worker.addr, q.answer(l.worker.addr))))
    case Push(_) => l.(worker := Idle, buf := l.buf + [l.worker.msg])
    case Handoff(_) => l.(worker := Idle, consumer := Holding(l.worker.msg))
    case Pop(_) => l.(buf := l.buf[1..], consumer := Holding(l.buf[0]))
    case Retire(_) => l.(worker := Closed)
    case Deliver(_) => l.(consumer := Waiting)
    case Finish(_) => l.(consumer := Finished)
  }

  ghost predicate Enabled<T>(q: Request<T>, s: State<T>, a: Action) {
    if OnLane(a) then a.w < |s.lanes| && LaneEnabled(q, s, a, s.lanes[a.w])
    else
      match a
      case Feed => s.phase.Feeding? && s.targets != [] && |s.queue| < q.inputs
      case CloseIn => s.phase.Feeding? && s.targets == []
      case CloseOut => s.wg == 0 && !s.outClosed
      case Return => s.phase.Draining? && s.outClosed
  }

  ghost function Next<T>(q: Request<T>, s: State<T>, a: Action): State<T>
    requires Enabled(q, s, a)
  {
    if OnLane(a) then
      var l := s.lanes[a.w];
      var lanes := s.lanes[a.w := LaneNext(q, s, a, l)];
      match a
      case FeedTo(_) => s.(lanes := lanes, targets := s.targets[1..])
      case Take(_) => s.(lanes := lanes, queue := s.queue[1..])
      case Deliver(_) => s.(lanes := lanes, received := s.received + [l.consumer.msg])
      case Finish(_) => s.(lanes := lanes, wg := s.wg - 1)
      case _ => s.(lanes := lanes)
    else
      match a
      case Feed => s.(targets := s.targets[1..], queue := s.queue + [s.targets[0]])
      case CloseIn => s.(phase := Draining)
      case CloseOut => s.(outClosed := true)
      case Return => s.(phase := Returned)
  }

  // ---------- counting messages ----------

  /** How often the calls to `addrs` give the message `m`. */
  ghost function Asked<T>(addrs: seq<string>, answer: string -> T, m: Msg<T>): nat {
    if m.reply == answer(m.addr) then multiset(addrs)[m.addr] else 0
  }

  lemma AskedSplit<T>(addrs: seq<string>, answer: string -> T, m: Msg<T>)
    requires addrs != []
    ensures Asked(addrs, answer, m)
         == Asked(addrs[1..], answer, m) + (if Msg(addrs[0], answer(addrs[0])) == m then 1 else 0)
  {
    assert addrs == [addrs[0]] + addrs[1..];
  }

  lemma AskedAppend<T>(addrs: seq<string>, x: string, answer: string -> T, m: Msg<T>)
    ensures Asked(addrs + [x], answer, m) == Asked(addrs, answer, m) + (if Msg(x, answer(x)) == m then 1 else 0)
  {
  }

  /** How often a lane carries `m`, a call in progress counted as the answer it will get. */
  ghost function Carried<T>(l: Lane<T>, answer: string -> T, m: Msg<T>): int {
    WorkerCarries(l.worker, answer, m) + BufferCarries(l.buf, m) + ConsumerCarries(l.consumer, m)
  }

  ghost function WorkerCarries<T>(worker: Worker<T>, answer: string -> T, m: Msg<T>): int {
    match worker
    case Calling(addr) => if Msg(addr, answer(addr)) == m then 1 else 0
    case Sending(x) => if x == m then 1 else 0
    case _ => 0
  }

  ghost function BufferCarries<T>(buf: seq<Msg<T>>, m: Msg<T>): int {
    multiset(buf)[m]
  }

  ghost function ConsumerCarries<T>(consumer: Consumer<T>, m: Msg<T>): int {
    if consumer.Holding? && consumer.msg == m then 1 else 0
  }

  ghost function Load<T>(answer: string -> T, m: Msg<T>): Lane<T> -> int {
    l => Carried(l, answer, m)
  }

  /** How many targets a lane holds. */
  ghost function Held<T>(l: Lane<T>): int {
    (if l.worker.Calling? || l.worker.Sending? then 1 else 0) + |l.buf| + (if l.consumer.Holding? then 1 else 0)
  }

  // ---------- the invariant ----------

  ghost function Open<T>(l: Lane<T>): int {
    if l.consumer.Finished? then 0 else 1
  }

  ghost predicate LaneOk<T>(q: Request<T>, s: State<T>, l: Lane<T>) {
    && |l.buf| <= q.capacity
    && (l.consumer.Finished? ==> l.worker.Closed? && l.buf == [])
    && (l.worker.Closed? ==> s.queue == [] && !s.phase.Feeding?)
  }

  /** Every target is in one place: not fed yet, queued, in a lane or received. */
  ghost predicate Conserved<T>(q: Request<T>, s: State<T>, m: Msg<T>) {
    Asked(s.targets, q.answer, m) + Asked(s.queue, q.answer, m)
    + Sum(s.lanes, Load(q.answer, m)) + multiset(s.received)[m]
    == Asked(q.targets, q.answer, m)
  }

  ghost predicate LanesOk<T>(q: Request<T>, s: State<T>) {
    |s.lanes| == q.workers && forall i :: 0 <= i < |s.lanes| ==> LaneOk(q, s, s.lanes[i])
  }

  ghost predicate Counted<T>(q: Request<T>, s: State<T>) {
    |s.targets| + |s.queue| + Sum(s.lanes, Held) + |s.received| == |q.targets|
  }

  ghost predicate PhaseOk<T>(q: Request<T>, s: State<T>) {
    && |s.queue| <= q.inputs
    && (if s.phase.Feeding? then s.received == [] else s.targets == [])
    && (s.phase.Returned? ==> s.outClosed)
  }

  ghost predicate Inv<T(!new)>(q: Request<T>, s: State<T>) {
    && LanesOk(q, s)
    && PhaseOk(q, s)
    && s.wg == Sum(s.lanes, Open)
    && (s.outClosed ==> s.wg == 0)
    && Counted(q, s)
    && (forall m :: Conserved(q, s, m))
  }

  lemma InvInit<T(!new)>(q: Request<T>)
    ensures Inv(q, Init(q))
  {
    SumOfSame(q.workers, Lane<T>.Lane(Idle, [], Waiting), Open);
    SumOfSame(q.workers, Lane<T>.Lane(Idle, [], Waiting), Held);
    forall m ensures Conserved(q, Init(q), m) {
      SumBounds(Init(q).lanes, Load(q.answer, m));
    }
  }

  /** How a step of a lane changes what all lanes carry: by what it takes in or delivers. */
  ghost function Moved<T>(q: Request<T>, s: State<T>, a: Action, l: Lane<T>, m: Msg<T>): int
    requires OnLane(a) && LaneEnabled(q, s, a, l)
  {
    match a
    case FeedTo(_) => if Msg(s.targets[0], q.answer(s.targets[0])) == m then 1 else 0
    case Take(_) => if Msg(s.queue[0], q.answer(s.queue[0])) == m then 1 else 0
    case Deliver(_) => if l.consumer.msg == m then -1 else 0
    case _ => 0
  }

  lemma LoadNext<T>(q: Request<T>, s: State<T>, a: Action, m: Msg<T>)
    requires OnLane(a) && Enabled(q, s, a)
    ensures Sum(Next(q, s, a).lanes, Load(q.answer, m))
         == Sum(s.lanes, Load(q.answer, m)) + Moved(q, s, a, s.lanes[a.w], m)
  {
    var l := s.lanes[a.w];
    LaneKeepsMsgs(q, s, a, l, m);
    LaneUpdate(q, s, a, Load(q.answer, m));
  }

  /** A step of a lane changes a sum over the lanes by what it changes in its own. */
  lemma LaneUpdate<T>(q: Request<T>, s: State<T>, a: Action, f: Lane<T> -> int)
    requires OnLane(a) && Enabled(q, s, a)
    ensures Sum(Next(q, s, a).lanes, f) == Sum(s.lanes, f) - f(s.lanes[a.w]) + f(LaneNext(q, s, a, s.lanes[a.w]))
  {
    SumUpdate(s.lanes, a.w, LaneNext(q, s, a, s.lanes[a.w]), f);
  }

  lemma ReceivedNext<T>(q: Request<T>, s: State<T>, a: Action, m: Msg<T>)
    requires a.Deliver? && Enabled(q, s, a)
    ensures multiset(Next(q, s, a).received)[m] == multiset(s.received)[m] - Moved(q, s, a, s.lanes[a.w], m)
  {
  }

  lemma LaneKeepsMsgs<T>(q: Request<T>, s: State<T>, a: Action, l: Lane<T>, m: Msg<T>)
    requires OnLane(a) && LaneEnabled(q, s, a, l)
    ensures Carried(LaneNext(q, s, a, l), q.answer, m) == Carried(l, q.answer, m) + Moved(q, s, a, l, m)
  {
    match a {
      case Push(_) => BufferGrows(l.buf, l.worker.msg, m);
      case Pop(_) => BufferShrinks(l.buf, m);
      case _ =>
    }
  }

  lemma BufferGrows<T>(buf: seq<Msg<T>>, x: Msg<T>, m: Msg<T>)
    ensures BufferCarries(buf + [x], m) == BufferCarries(buf, m) + (if x == m then 1 else 0)
  {
  }

  lemma BufferShrinks<T>(buf: seq<Msg<T>>, m: Msg<T>)
    requires buf != []
    ensures BufferCarries(buf, m) == BufferCarries(buf[1..], m) + (if buf[0] == m then 1 else 0)
  {
    assert buf == [buf[0]] + buf[1..];
  }

  lemma FeedConserves<T>(q: Request<T>, s: State<T>, m: Msg<T>)
    requires Conserved(q, s, m) && Enabled(q, s, Feed)
    ensures Conserved(q, Next(q, s, Feed), m)
  {
    AskedSplit(s.targets, q.answer, m);
    AskedAppend(s.queue, s.targets[0], q.answer, m);
  }

  lemma FeedToConserves<T>(q: Request<T>, s: State<T>, w: nat, m: Msg<T>)
    requires Conserved(q, s, m) && Enabled(q, s, FeedTo(w))
    ensures Conserved(q, Next(q, s, FeedTo(w)), m)
  {
    LoadNext(q, s, FeedTo(w), m);
    AskedSplit(s.targets, q.answer, m);
  }

  lemma TakeConserves<T>(q: Request<T>, s: State<T>, w: nat, m: Msg<T>)
    requires Conserved(q, s, m) && Enabled(q, s, Take(w))
    ensures Conserved(q, Next(q, s, Take(w)), m)
  {
    LoadNext(q, s, Take(w), m);
    AskedSplit(s.queue, q.answer, m);
  }

  lemma DeliverConserves<T>(q: Request<T>, s: State<T>, w: nat, m: Msg<T>)
    requires Conserved(q, s, m) && Enabled(q, s, Deliver(w))
    ensures Conserved(q, Next(q, s, Deliver(w)), m)
  {
    LoadNext(q, s, Deliver(w), m);
    ReceivedNext(q, s, Deliver(w), m);
  }

  lemma LaneConserves<T>(q: Request<T>, s: State<T>, a: Action, m: Msg<T>)
    requires Conserved(q, s, m) && Enabled(q, s, a)
    requires OnLane(a) && !a.FeedTo? && !a.Take? && !a.Deliver?
    ensures Conserved(q, Next(q, s, a), m)
  {
    LoadNext(q, s, a, m);
  }

  lemma ConservedNext<T>(q: Request<T>, s: State<T>, a: Action, m: Msg<T>)
    requires Conserved(q, s, m) && Enabled(q, s, a)
    ensures Conserved(q, Next(q, s, a), m)
  {
    match a {
      case Feed => FeedConserves(q, s, m);
      case FeedTo(w) => FeedToConserves(q, s, w, m);
      case Take(w) => TakeConserves(q, s, w, m);
      case Deliver(w) => DeliverConserves(q, s, w, m);
      case _ =>
        if OnLane(a) {
          LaneConserves(q, s, a, m);
        }
    }
  }

  lemma CountedNext<T>(q: Request<T>, s: State<T>, a: Action)
    requires Counted(q, s) && Enabled(q, s, a)
    ensures Counted(q, Next(q, s, a))
  {
    if OnLane(a) {
      HeldNext(q, s, a, s.lanes[a.w]);
      LaneUpdate(q, s, a, Held);
    }
  }

  lemma HeldNext<T>(q: Request<T>, s: State<T>, a: Action, l: Lane<T>)
    requires OnLane(a) && LaneEnabled(q, s, a, l)
    ensures Held(LaneNext(q, s, a, l)) == Held(l) + (if a.FeedTo? || a.Take? then 1 else if a.Deliver? then -1 else 0)
  {
  }

  lemma LanesOkNext<T>(q: Request<T>, s: State<T>, a: Action)
    requires LanesOk(q, s) && Enabled(q, s, a)
    ensures LanesOk(q, Next(q, s, a))
  {
    if OnLane(a) {
      var s' := Next(q, s, a);
      LaneOkNext(q, s, a, s.lanes[a.w]);
      forall i | 0 <= i < |s.lanes| ensures LaneOk(q, s', s'.lanes[i]) {
        assert LaneOk(q, s, s.lanes[i]);
      }
    } else {
      var s' := Next(q, s, a);
      forall i | 0 <= i < |s.lanes| ensures LaneOk(q, s', s'.lanes[i]) {
        assert LaneOk(q, s, s.lanes[i]);
      }
    }
  }

  lemma LaneOkNext<T>(q: Request<T>, s: State<T>, a: Action, l: Lane<T>)
    requires OnLane(a) && Enabled(q, s, a) && l == s.lanes[a.w] && LaneOk(q, s, l)
    ensures LaneOk(q, Next(q, s, a), LaneNext(q, s, a, l))
  {
  }

  lemma InvNext<T(!new)>(q: Request<T>, s: State<T>, a: Action)
    requires Inv(q, s) && Enabled(q, s, a)
    ensures Inv(q, Next(q, s, a))
  {
    forall m ensures Conserved(q, Next(q, s, a), m) {
      ConservedNext(q, s, a, m);
    }
    CountedNext(q, s, a);
    LanesOkNext(q, s, a);
    WaitGroupNext(q, s, a);
  }

  lemma WaitGroupNext<T(!new)>(q: Request<T>, s: State<T>, a: Action)
    requires Inv(q, s) && Enabled(q, s, a)
    ensures var s' := Next(q, s, a); s'.wg == Sum(s'.lanes, Open) && (s'.outClosed ==> s'.wg == 0)
  {
    AllFinished(q, s);
    if OnLane(a) {
      LaneUpdate(q, s, a, Open);
    }
  }

  /** What a lane holds, first in first: what its consumer holds, what is buffered, and what its worker calls or
      sends, a call counted as the answer it will get. */
  ghost function Line<T>(l: Lane<T>, answer: string -> T): seq<Msg<T>> {
    (match l.consumer case Holding(m) => [m] case _ => [])
    + l.buf
    + (match l.worker case Calling(addr) => [Msg(addr, answer(addr))] case Sending(m) => [m] case _ => [])
  }

  /** What the step puts into a lane: the first of the targets if it is handed over, or the first of the queue. */
  ghost function Entering<T>(q: Request<T>, s: State<T>, a: Action): seq<Msg<T>> {
    if a.FeedTo? && s.targets != [] then [Msg(s.targets[0], q.answer(s.targets[0]))]
    else if a.Take? && s.queue != [] then [Msg(s.queue[0], q.answer(s.queue[0]))]
    else []
  }

  /** What the step takes out of a lane. */
  ghost function Leaving<T>(a: Action, l: Lane<T>): seq<Msg<T>> {
    if a.Deliver? && l.consumer.Holding? then [l.consumer.msg] else []
  }

  /** No lane changes the order of its targets: what enters goes to the end, what leaves comes from the front and is
      received last. */
  lemma LanesKeepOrder<T>(q: Request<T>, s: State<T>, a: Action, s': State<T>, l: Lane<T>)
    requires OnLane(a) && Enabled(q, s, a) && s' == Next(q, s, a) && l == s.lanes[a.w]
    ensures a.w < |s'.lanes| && Leaving(a, l) + Line(s'.lanes[a.w], q.answer) == Line(l, q.answer) + Entering(q, s, a)
    ensures s'.received == s.received + Leaving(a, l)
  {
    LaneKeepsOrder(q, s, a, l);
  }

  lemma LaneKeepsOrder<T>(q: Request<T>, s: State<T>, a: Action, l: Lane<T>)
    requires OnLane(a) && LaneEnabled(q, s, a, l)
    ensures Leaving(a, l) + Line(LaneNext(q, s, a, l), q.answer) == Line(l, q.answer) + Entering(q, s, a)
  {
    match a {
      case Pop(_) => assert l.buf == [l.buf[0]] + l.buf[1..];
      case _ =>
    }
  }

  /** When the wait group is at zero, every consumer is done, and so is its worker. */
  lemma AllFinished<T(!new)>(q: Request<T>, s: State<T>)
    requires Inv(q, s)
    ensures s.wg >= 0
    ensures s.wg == 0 ==> forall i :: 0 <= i < |s.lanes| ==> s.lanes[i].consumer.Finished?
  {
    SumBounds(s.lanes, Open);
    if s.wg == 0 {
      forall i | 0 <= i < |s.lanes| ensures s.lanes[i].consumer.Finished? {
        assert Open(s.lanes[i]) == 0;
      }
    }
  }

  // ---------- what the invariant gives ----------

  /** Nobody sends on a closed channel: the merged channel is closed only when no consumer has something to
      send (the other channels are closed by their only sender). If the input channel has a place for each
      target, feeding it never blocks. */
  lemma NoSendOnClosedChannel<T(!new)>(q: Request<T>, s: State<T>)
    requires Inv(q, s)
    ensures s.outClosed ==> forall i :: 0 <= i < |s.lanes| ==> !s.lanes[i].consumer.Holding?
    ensures |q.targets| <= q.inputs && s.phase.Feeding? && s.targets != [] ==> Enabled(q, s, Feed)
  {
    AllFinished(q, s);
    SumBounds(s.lanes, Held);
  }

  /** While the handler feeds, the lanes and the queue hold no more than they have room for. */
  lemma LanesHoldAtMost<T(!new)>(q: Request<T>, s: State<T>)
    requires Inv(q, s) && s.phase.Feeding?
    ensures |q.targets| - |s.targets| <= Room(q)
  {
    forall i | 0 <= i < |s.lanes| ensures Held(s.lanes[i]) <= q.capacity + 2 {
      assert LaneOk(q, s, s.lanes[i]);
    }
    SumAtMost(s.lanes, Held, q.capacity + 2);
  }

  /** As long as the request has not returned, some goroutine can move, if there is room for the targets. */
  lemma NoDeadlock<T(!new)>(q: Request<T>, s: State<T>) returns (a: Action)
    requires Inv(q, s) && !s.phase.Returned? && |q.targets| <= Room(q)
    ensures Enabled(q, s, a)
  {
    if s.phase.Feeding? {
      a := FeedingMoves(q, s);
    } else if w :| 0 <= w < |s.lanes| && !s.lanes[w].consumer.Finished? {
      a := LaneMoves(q, s, w);
    } else {
      SumBounds(s.lanes, Open);
      a := if s.outClosed then Return else CloseOut;
    }
  }

  lemma FeedingMoves<T(!new)>(q: Request<T>, s: State<T>) returns (a: Action)
    requires Inv(q, s) && s.phase.Feeding? && |q.targets| <= Room(q)
    ensures Enabled(q, s, a)
  {
    if s.targets == [] {
      a := CloseIn;
    } else if |s.queue| < q.inputs {
      a := Feed;
    } else if w :| 0 <= w < |s.lanes| && Held(s.lanes[w]) < q.capacity + 2 {
      a := LaneMovesWhileFeeding(q, s, w);
    } else {
      SumAtLeast(s.lanes, Held, q.capacity + 2);
      assert false;
    }
  }

  /** While the handler feeds, a lane that is not full can move. */
  lemma LaneMovesWhileFeeding<T>(q: Request<T>, s: State<T>, w: nat) returns (a: Action)
    requires w < |s.lanes| && LaneOk(q, s, s.lanes[w]) && s.phase.Feeding? && s.targets != []
    requires Held(s.lanes[w]) < q.capacity + 2
    ensures Enabled(q, s, a)
  {
    var l := s.lanes[w];
    match l.worker {
      case Idle => a := if s.queue != [] then Take(w) else FeedTo(w);
      case Calling(_) => a := Reply(w);
      case Sending(_) =>
        a := if |l.buf| < q.capacity then Push(w) else if l.buf != [] then Pop(w) else Handoff(w);
    }
  }

  lemma LaneMoves<T>(q: Request<T>, s: State<T>, w: nat) returns (a: Action)
    requires w < |s.lanes| && LaneOk(q, s, s.lanes[w]) && s.phase.Draining?
    requires !s.lanes[w].consumer.Finished?
    ensures Enabled(q, s, a)
  {
    var l := s.lanes[w];
    if l.consumer.Holding? {
      a := Deliver(w);
    } else if l.buf != [] {
      a := Pop(w);
    } else {
      match l.worker {
        case Idle => a := if s.queue != [] then Take(w) else Retire(w);
        case Calling(_) => a := Reply(w);
        case Sending(_) => a := Handoff(w);
        case Closed => a := Finish(w);
      }
    }
  }

  ghost function LaneWeight<T>(l: Lane<T>): int {
    (match l.worker case Idle => 1 case Calling(_) => 5 case Sending(_) => 4 case Closed => 0)
    + 2 * |l.buf|
    + (match l.consumer case Waiting => 1 case Holding(_) => 2 case Finished => 0)
  }

  /** A bound on the number of steps still to come. */
  ghost function Weight<T>(s: State<T>): int {
    6 * |s.targets| + 5 * |s.queue| + Sum(s.lanes, LaneWeight)
    + (match s.phase case Feeding => 2 case Draining => 1 case Returned => 0)
    + (if s.outClosed then 0 else 1)
  }

  lemma LaneWeightChanges<T>(q: Request<T>, s: State<T>, a: Action, l: Lane<T>)
    requires OnLane(a) && LaneEnabled(q, s, a, l)
    ensures 0 <= LaneWeight(LaneNext(q, s, a, l)) < LaneWeight(l) + (if a.Take? then 5 else if a.FeedTo? then 6 else 0)
  {
  }

  lemma WeightIsNotNegative<T>(s: State<T>)
    ensures Weight(s) >= 0
  {
    SumBounds(s.lanes, LaneWeight);
  }

  lemma WeightDecreases<T>(q: Request<T>, s: State<T>, a: Action)
    requires Enabled(q, s, a)
    ensures 0 <= Weight(Next(q, s, a)) < Weight(s)
  {
    if OnLane(a) {
      LaneWeightChanges(q, s, a, s.lanes[a.w]);
      LaneUpdate(q, s, a, LaneWeight);
    }
    WeightIsNotNegative(Next(q, s, a));
  }

  /** When the request returns, it has received exactly the answer of every target. */
  lemma ReturnedHasAll<T(!new)>(q: Request<T>, s: State<T>, m: Msg<T>)
    requires Inv(q, s) && s.phase.Returned? && q.workers >= 1
    ensures multiset(s.received)[m] == Asked(q.targets, q.answer, m)
  {
    AllFinished(q, s);
    assert LaneOk(q, s, s.lanes[0]);
    SumBounds(s.lanes, Load(q.answer, m));
    assert Conserved(q, s, m);
  }

  // ---------- whole runs ----------

  /** The states of a run, one action after the other. */
  ghost predicate IsRun<T(!new)>(q: Request<T>, actions: seq<Action>, s: State<T>)
    decreases |actions|
  {
    if actions == [] then s == Init(q)
    else
      var n := |actions| - 1;
      exists p :: IsRun(q, actions[..n], p) && Enabled(q, p, actions[n]) && s == Next(q, p, actions[n])
  }

  /** No run is longer than six steps for each target, two for each worker and three more. */
  lemma {:induction false} RunsAreBounded<T(!new)>(q: Request<T>, actions: seq<Action>, s: State<T>)
    requires IsRun(q, actions, s)
    ensures Inv(q, s)
    ensures Weight(s) >= 0
    ensures |actions| + Weight(s) <= 6 * |q.targets| + 2 * q.workers + 3
    decreases |actions|
  {
    if actions == [] {
      InvInit(q);
      SumOfSame(q.workers, Lane<T>.Lane(Idle, [], Waiting), LaneWeight);
      WeightIsNotNegative(s);
    } else {
      var n := |actions| - 1;
      var p :| IsRun(q, actions[..n], p) && Enabled(q, p, actions[n]) && s == Next(q, p, actions[n]);
      RunsAreBounded(q, actions[..n], p);
      InvNext(q, p, actions[n]);
      WeightDecreases(q, p, actions[n]);
    }
  }

  /** A request with more targets than there is room for never stops feeding: its handler only receives
      afterwards. */
  lemma {:induction false} TooManyTargetsNeverReturn<T(!new)>(q: Request<T>, actions: seq<Action>, s: State<T>)
    requires IsRun(q, actions, s) && |q.targets| > Room(q)
    ensures s.phase.Feeding? && s.targets != []
    decreases |actions|
  {
    if actions != [] {
      var n := |actions| - 1;
      var p :| IsRun(q, actions[..n], p) && Enabled(q, p, actions[n]) && s == Next(q, p, actions[n]);
      TooManyTargetsNeverReturn(q, actions[..n], p);
    }
    RunsAreBounded(q, actions, s);
    LanesHoldAtMost(q, s);
  }

  /** A run that cannot go on has returned exactly if there is room for the targets, and then with the answer of
      every target, each once. */
  lemma MaximalRunsReturnEverything<T(!new)>(q: Request<T>, actions: seq<Action>, s: State<T>)
    requires IsRun(q, actions, s) && q.workers >= 1
    requires forall a :: !Enabled(q, s, a)
    ensures s.phase.Returned? <==> |q.targets| <= Room(q)
    ensures s.phase.Returned? ==> forall m :: multiset(s.received)[m] == Asked(q.targets, q.answer, m)
  {
    RunsAreBounded(q, actions, s);
    if |q.targets| > Room(q) {
      TooManyTargetsNeverReturn(q, actions, s);
    } else if !s.phase.Returned? {
      var a := NoDeadlock(q, s);
    }
    if s.phase.Returned? {
      forall m ensures multiset(s.received)[m] == Asked(q.targets, q.answer, m) {
        ReturnedHasAll(q, s, m);
      }
    }
  }

  // ---------- the requests of the gate ----------

  ghost function RepliesOf<T>(received: seq<Msg<T>>): seq<T> {
    seq(|received|, i requires 0 <= i < |received| => received[i].reply)
  }

  lemma RepliesAreAnswers<T(!new)>(q: Request<T>, s: State<T>, x: T)
    requires Inv(q, s) && s.phase.Returned? && q.workers >= 1
    ensures x in RepliesOf(s.received) <==> exists addr :: addr in q.targets && q.answer(addr) == x
  {
    if x in RepliesOf(s.received) {
      var i :| 0 <= i < |s.received| && s.received[i].reply == x;
      ReturnedHasAll(q, s, s.received[i]);
      assert s.received[i] in multiset(s.received);
      assert s.received[i].addr in multiset(q.targets);
    }
    if addr :| addr in q.targets && q.answer(addr) == x {
      ReturnedHasAll(q, s, Msg(addr, x));
      assert addr in multiset(q.targets);
      assert Msg(addr, x) in multiset(s.received);
      var i :| 0 <= i < |s.received| && s.received[i] == Msg(addr, x);
      assert RepliesOf(s.received)[i] == x;
    }
  }

  /** The answers of the targets, in the order of the targets. */
  ghost function Direct<T>(q: Request<T>): seq<T> {
    seq(|q.targets|, i requires 0 <= i < |q.targets| => q.answer(q.targets[i]))
  }

  lemma RepliesAreDirect<T(!new)>(q: Request<T>, actions: seq<Action>, s: State<T>)
    requires IsRun(q, actions, s) && s.phase.Returned? && q.workers >= 1
    ensures Alike(RepliesOf(s.received), Direct(q))
  {
    RunsAreBounded(q, actions, s);
    forall x ensures x in RepliesOf(s.received) <==> x in Direct(q) {
      RepliesAreAnswers(q, s, x);
      if addr :| addr in q.targets && q.answer(addr) == x {
        var i :| 0 <= i < |q.targets| && q.targets[i] == addr;
        assert Direct(q)[i] == x;
      }
    }
  }

  /** The interleaving does not show in a listing: any run that returns gives the outcome of the answers of
      the targets, taken in any order. */
  lemma ListIgnoresInterleaving(q: Request<Answer>, actions: seq<Action>, s: State<Answer>, max: nat)
    requires IsRun(q, actions, s) && s.phase.Returned? && q.workers >= 1
    ensures ListOutcome(RepliesOf(s.received), max) == ListOutcome(Direct(q), max)
  {
    RepliesAreDirect(q, actions, s);
    ListOutcomeIgnoresOrder(RepliesOf(s.received), Direct(q), max);
  }

  /** Over stores, whatever the interleaving, the pages received can be merged, and the outcome is the page of
      the union of what the reached stores hold. */
  lemma ListOverStores(q: Request<Answer>, actions: seq<Action>, s: State<Answer>, calls: seq<Call>,
                       base: string, marker: string, max: nat)
    requires IsRun(q, actions, s) && s.phase.Returned? && q.workers >= 1
    requires Direct(q) == Answers(calls, base, marker, max)
    ensures Mergeable(Tabs(RepliesOf(s.received)))
    ensures ListOutcome(RepliesOf(s.received), max)
         == if base != "" && SomeReached(calls) then IndexStore.Ok(Page(Visible(calls, base, marker), GateCap(max)))
            else Err(NoBackendReplied)
  {
    RepliesAreDirect(q, actions, s);
    StoresSendMergeablePages(calls, base, marker, max);
    SameTabs(RepliesOf(s.received), Direct(q));
    ListIgnoresInterleaving(q, actions, s, max);
    GatePageIsUnionPage(calls, base, marker, max);
  }

  /** A `Get` over stores answers the empty value, exactly when a reached store holds the pair. */
  lemma GetOverStores(q: Request<ValueAnswer>, actions: seq<Action>, s: State<ValueAnswer>, calls: seq<Call>,
                      base: string, key: string, r: ValueReply)
    requires IsRun(q, actions, s) && s.phase.Returned? && q.workers >= 1
    requires Direct(q) == ValueAnswers(calls, base, key) && IsGetOutcome(RepliesOf(s.received), r)
    ensures r == if Found(calls, base, key) then IndexStore.Ok(("", 0)) else Err(NoBackendReplied)
  {
    RepliesAreDirect(q, actions, s);
    GetOverStoresLosesTheValue(calls, base, key, RepliesOf(s.received), r);
  }

  // ---------- what a Get can answer ----------

  /** A run that returns, on the targets in some order (backends are iterated in no particular order), makes
      the handler answer `r`. */
  ghost predicate CanAnswer(q: Request<ValueAnswer>, r: ValueReply) {
    exists targets, actions, s ::
      multiset(targets) == multiset(q.targets) && AnswersBy(q.(targets := targets), actions, s, r)
  }

  ghost predicate AnswersBy(q: Request<ValueAnswer>, actions: seq<Action>, s: State<ValueAnswer>,
                            r: ValueReply) {
    IsRun(q, actions, s) && s.phase.Returned? && IsGetOutcome(RepliesOf(s.received), r)
  }

  lemma RunExtends<T(!new)>(q: Request<T>, actions: seq<Action>, s: State<T>, a: Action)
      returns (run: seq<Action>, t: State<T>)
    requires IsRun(q, actions, s) && Enabled(q, s, a)
    ensures IsRun(q, run, t) && t == Next(q, s, a)
  {
    run, t := actions + [a], Next(q, s, a);
    assert run[..|actions|] == actions;
  }

  /** The first target can be the one whose reply the first consumer holds while the rest is fed. */
  lemma FirstTargetIsHeld<T(!new)>(q: Request<T>) returns (run: seq<Action>, s: State<T>)
    requires q.targets != [] && q.workers >= 1
    ensures IsRun(q, run, s) && s.phase.Feeding?
    ensures s.lanes != [] && s.lanes[0].consumer == Holding(Msg(q.targets[0], q.answer(q.targets[0])))
  {
    run, s := [], Init(q);
    run, s := RunExtends(q, run, s, FeedTo(0));
    run, s := RunExtends(q, run, s, Reply(0));
    run, s := RunExtends(q, run, s, Handoff(0));
  }

  lemma HolderStays<T>(q: Request<T>, s: State<T>, a: Action, m: Msg<T>)
    requires Enabled(q, s, a) && s.phase.Feeding? && s.received == []
    requires s.lanes != [] && s.lanes[0].consumer == Holding(m)
    ensures var t := Next(q, s, a);
            && t.received == [] && !t.phase.Returned?
            && t.lanes != [] && t.lanes[0].consumer == Holding(m)
  {
  }

  lemma {:induction false} FedWhileHeld<T(!new)>(q: Request<T>, actions: seq<Action>, s: State<T>, m: Msg<T>)
      returns (run: seq<Action>, t: State<T>)
    requires IsRun(q, actions, s) && s.phase.Feeding? && |q.targets| <= Room(q)
    requires s.lanes != [] && s.lanes[0].consumer == Holding(m)
    ensures IsRun(q, run, t) && t.phase.Draining? && t.received == []
    ensures t.lanes != [] && t.lanes[0].consumer == Holding(m)
    decreases Weight(s)
  {
    RunsAreBounded(q, actions, s);
    var a := NoDeadlock(q, s);
    WeightDecreases(q, s, a);
    HolderStays(q, s, a, m);
    run, t := RunExtends(q, actions, s, a);
    if t.phase.Feeding? {
      run, t := FedWhileHeld(q, run, t, m);
    }
  }

  lemma {:induction false} RunsToTheEnd<T(!new)>(q: Request<T>, actions: seq<Action>, s: State<T>, m: Msg<T>)
      returns (run: seq<Action>, t: State<T>)
    requires IsRun(q, actions, s) && s.received != [] && s.received[0] == m && |q.targets| <= Room(q)
    ensures IsRun(q, run, t) && t.phase.Returned? && t.received != [] && t.received[0] == m
    decreases Weight(s)
  {
    run, t := actions, s;
    if !s.phase.Returned? {
      RunsAreBounded(q, actions, s);
      var a := NoDeadlock(q, s);
      WeightDecreases(q, s, a);
      run, t := RunExtends(q, actions, s, a);
      run, t := RunsToTheEnd(q, run, t, m);
    }
  }

  /** Some run receives the answer of the first target first. */
  lemma FirstTargetCanBeFirst<T(!new)>(q: Request<T>) returns (run: seq<Action>, t: State<T>)
    requires q.targets != [] && q.workers >= 1 && |q.targets| <= Room(q)
    ensures IsRun(q, run, t) && t.phase.Returned?
    ensures t.received != [] && t.received[0] == Msg(q.targets[0], q.answer(q.targets[0]))
  {
    var m := Msg(q.targets[0], q.answer(q.targets[0]));
    run, t := FirstTargetIsHeld(q);
    run, t := FedWhileHeld(q, run, t, m);
    run, t := RunExtends(q, run, t, Deliver(0));
    run, t := RunsToTheEnd(q, run, t, m);
  }

  /** Any of the winners can decide the answer: it may come first. */
  lemma WinnerCanDecide(q: Request<ValueAnswer>, x: ValueAnswer)
    requires q.workers >= 1 && |q.targets| <= Room(q) && x in Direct(q) && Winner(x, Direct(q))
    ensures CanAnswer(q, IndexStore.Ok((x.value, x.version)))
  {
    var k :| 0 <= k < |q.targets| && Direct(q)[k] == x;
    var q' := q.(targets := [q.targets[k]] + (q.targets[..k] + q.targets[k + 1..]));
    MovedToFront(q.targets, k);
    SameMembers(q'.targets, q.targets);
    SameDirect(q, q');
    var run, t := FirstTargetCanBeFirst(q');
    RepliesAreDirect(q', run, t);
    AlikeThrough(RepliesOf(t.received), Direct(q'), Direct(q));
    AlikeWinner(RepliesOf(t.received), Direct(q), x);
    FirstWinnerDecides(RepliesOf(t.received), x);
    assert AnswersBy(q', run, t, IndexStore.Ok((x.value, x.version)));
  }

  lemma SameDirect<T(!new)>(q: Request<T>, q': Request<T>)
    requires q'.answer == q.answer && forall addr :: addr in q.targets <==> addr in q'.targets
    ensures Alike(Direct(q'), Direct(q))
  {
    forall x ensures x in Direct(q') <==> x in Direct(q) {
      DirectIncluded(q, q', x);
      DirectIncluded(q', q, x);
    }
  }

  lemma DirectIncluded<T>(q: Request<T>, q': Request<T>, x: T)
    requires q'.answer == q.answer && forall addr :: addr in q.targets ==> addr in q'.targets
    ensures x in Direct(q) ==> x in Direct(q')
  {
    if x in Direct(q) {
      var i :| 0 <= i < |q.targets| && Direct(q)[i] == x;
      assert q.targets[i] in q'.targets;
      var j :| 0 <= j < |q'.targets| && q'.targets[j] == q.targets[i];
      assert Direct(q')[j] == x;
    }
  }

  lemma AnswersAgree(q: Request<ValueAnswer>, r1: ValueReply, r2: ValueReply)
    requires q.workers >= 1 && WinnersAgree(Direct(q)) && CanAnswer(q, r1) && CanAnswer(q, r2)
    ensures r1 == r2
  {
    var replies1 := AnswerIsOutcome(q, r1);
    var replies2 := AnswerIsOutcome(q, r2);
    AlikeThrough(replies2, Direct(q), replies1);
    AlikeWinnersAgree(replies1, Direct(q));
    SameAnswer(replies1, r1, replies2, r2);
  }

  lemma AnswerIsOutcome(q: Request<ValueAnswer>, r: ValueReply) returns (replies: seq<ValueAnswer>)
    requires q.workers >= 1 && CanAnswer(q, r)
    ensures IsGetOutcome(replies, r) && Alike(replies, Direct(q))
  {
    var targets, actions, s :|
      multiset(targets) == multiset(q.targets) && AnswersBy(q.(targets := targets), actions, s, r);
    RepliesOfAnyOrder(q, targets, actions, s);
    replies := RepliesOf(s.received);
  }

  lemma RepliesOfAnyOrder<T(!new)>(q: Request<T>, targets: seq<string>, actions: seq<Action>, s: State<T>)
    requires multiset(targets) == multiset(q.targets) && q.workers >= 1
    requires IsRun(q.(targets := targets), actions, s) && s.phase.Returned?
    ensures Alike(RepliesOf(s.received), Direct(q))
  {
    RepliesAreDirect(q.(targets := targets), actions, s);
    SameMembers(targets, q.targets);
    SameDirect(q, q.(targets := targets));
    AlikeThrough(RepliesOf(s.received), Direct(q.(targets := targets)), Direct(q));
  }

  lemma NoAnswerWithoutRoom(q: Request<ValueAnswer>, r: ValueReply)
    requires |q.targets| > Room(q)
    ensures !CanAnswer(q, r)
  {
    if targets, actions, s :| multiset(targets) == multiset(q.targets) && AnswersBy(q.(targets := targets), actions, s, r) {
      assert |targets| == |multiset(targets)| == |q.targets|;
      TooManyTargetsNeverReturn(q.(targets := targets), actions, s);
    }
  }

  /** Whatever the order of the backends and the interleaving, a `Get` that returns gives one and the same answer
      exactly when the targets with the highest positive version answer alike. */
  lemma GetIgnoresInterleavingIffWinnersAgree(q: Request<ValueAnswer>)
    requires q.workers >= 1
    ensures WinnersAgree(Direct(q)) || |q.targets| > Room(q)
       <==> forall r1, r2 :: CanAnswer(q, r1) && CanAnswer(q, r2) ==> r1 == r2
  {
    if |q.targets| > Room(q) {
      forall r ensures !CanAnswer(q, r) {
        NoAnswerWithoutRoom(q, r);
      }
    } else if WinnersAgree(Direct(q)) {
      forall r1, r2 | CanAnswer(q, r1) && CanAnswer(q, r2) ensures r1 == r2 {
        AnswersAgree(q, r1, r2);
      }
    } else {
      var r1, r2 := WinnersDecideOtherwise(q);
    }
  }

  lemma WinnersDecideOtherwise(q: Request<ValueAnswer>) returns (r1: ValueReply, r2: ValueReply)
    requires q.workers >= 1 && |q.targets| <= Room(q) && !WinnersAgree(Direct(q))
    ensures CanAnswer(q, r1) && CanAnswer(q, r2) && r1 != r2
  {
    var x, y :| x in Direct(q) && y in Direct(q) && Winner(x, Direct(q)) && Winner(y, Direct(q)) && x != y;
    r1, r2 := IndexStore.Ok((x.value, x.version)), IndexStore.Ok((y.value, y.version));
    WinnerCanDecide(q, x);
    WinnerCanDecide(q, y);
  }

  /** A put or a delete that returns succeeds exactly when one backend did, whatever the interleaving. */
  lemma WriteSucceedsIffOneBackendDid(q: Request<bool>, actions: seq<Action>, s: State<bool>)
    requires IsRun(q, actions, s) && s.phase.Returned? && q.workers >= 1
    ensures true in RepliesOf(s.received) <==> exists addr :: addr in q.targets && q.answer(addr)
  {
    RunsAreBounded(q, actions, s);
    RepliesAreAnswers(q, s, true);
  }
}
