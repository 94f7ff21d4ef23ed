/** The logging worker as a state machine over the atomic steps of producers, start-up and worker. */
module LogWorker {
  import opened Options

  datatype Thread = Client(id: nat) | OnWorker

  /** The `index`-th enabled record of one thread. */
  datatype Record = Record(thread: Thread, index: nat)

  /**
   * `Claimed`: one caller of `start` holds the receiver. `Deactivated`: the flag is down, the receiver
   * not yet dropped.
   */
  datatype Phase =
    | Unstarted
    | Claimed
    | Spawned
    | Running(hand: Option<Record>)
    | Deactivated
    | Dead

  /** Between reading the active flag and acting on it a producer remembers what it read. */
  datatype Producer = Producer(next: nat, saw: Option<bool>)

  datatype State = State(started: bool, active: bool, workers: nat, phase: Phase, queue: seq<Record>,
                         emitted: seq<Record>, lost: seq<Record>, producers: map<nat, Producer>, workerNext: nat)

  datatype Event =
    | Decide(t: nat)
    | Act(t: nat)
    | StartSwap
    | Spawn(ok: bool)
    | Activate
    | Receive
    | EmitHand
    | WorkerLog
    | Die
    | DropReceiver

  const INITIAL := State(false, false, 0, Unstarted, [], [], [], map[], 0)

  function ProducerOf(s: State, t: nat): Producer {
    if t in s.producers then s.producers[t] else Producer(0, None)
  }

  function NextOf(s: State, t: Thread): nat {
    match t
    case Client(id) => ProducerOf(s, id).next
    case OnWorker => s.workerNext
  }

  /** The worker's current message. */
  function Hand(s: State): seq<Record> {
    if s.phase.Running? && s.phase.hand.Some? then [s.phase.hand.value] else []
  }

  /** One atomic step; an event whose turn has not come changes nothing. */
  function Step(s: State, e: Event): State {
    match e
    case Decide(t) =>
      var p := ProducerOf(s, t);
      if p.saw.None? then s.(producers := s.producers[t := p.(saw := Some(s.active))]) else s
    case Act(t) =>
      var p := ProducerOf(s, t);
      if p.saw.None? then s
      else
        var r := Record(Client(t), p.next);
        var moved := s.(producers := s.producers[t := Producer(p.next + 1, None)]);
        if p.saw.value && s.phase != Dead then moved.(queue := s.queue + [r])
        else moved.(emitted := s.emitted + [r])
    case StartSwap => if s.started then s else s.(started := true, phase := Claimed)
    case Spawn(ok) =>
      if s.phase != Claimed then s
      else if ok then s.(phase := Spawned, workers := s.workers + 1)
      else s.(phase := Dead)
    case Activate => if s.phase == Spawned then s.(phase := Running(None), active := true) else s
    case Receive =>
      if s.phase == Running(None) && s.queue != [] then
        s.(phase := Running(Some(s.queue[0])), queue := s.queue[1..])
      else s
    case EmitHand =>
      if s.phase.Running? && s.phase.hand.Some? then
        s.(phase := Running(None), emitted := s.emitted + [s.phase.hand.value])
      else s
    case WorkerLog =>
      if s.phase.Running? then
        s.(emitted := s.emitted + [Record(OnWorker, s.workerNext)], workerNext := s.workerNext + 1)
      else s
    case Die => if s.phase.Running? then s.(phase := Deactivated, active := false, lost := s.lost + Hand(s)) else s
    case DropReceiver =>
      if s.phase == Deactivated then s.(phase := Dead, queue := [], lost := s.lost + s.queue) else s
  }

  function Run(s: State, es: seq<Event>): State
    decreases es
  {
    if es == [] then s else Run(Step(s, es[0]), es[1..])
  }

  /** What the worker has still to write. */
  function Pending(s: State): seq<Record> {
    Hand(s) + s.queue
  }

  /** The part of it that a living worker will write. */
  function Ahead(s: State): seq<Record> {
    if s.phase.Running? then Pending(s) else []
  }

  /** What has been or, while the worker lives, will be written, in that order. */
  function Stream(s: State): seq<Record> {
    s.emitted + Ahead(s)
  }

  ghost predicate InOrder(records: seq<Record>) {
    forall i, j :: 0 <= i < j < |records| && records[i].thread == records[j].thread ==>
      records[i].index < records[j].index
  }

  /** Records of one thread appear in its program order, hence at most once, and only records it has made appear. */
  ghost predicate Sequenced(records: seq<Record>, s: State) {
    && InOrder(records)
    && (forall r :: r in records ==> r.index < NextOf(s, r.thread))
  }

  /** A record is written, on its way, or lost with the worker. */
  ghost predicate Held(s: State, r: Record) {
    r in s.emitted || r in Hand(s) || r in s.queue || r in s.lost
  }

  ghost predicate Accounted(s: State) {
    forall t: nat, k: nat :: k < ProducerOf(s, t).next ==> Held(s, Record(Client(t), k))
  }

  /** Only clients queue, and while the worker lives nobody with a queued record has since seen the flag down. */
  ghost predicate Queued(s: State) {
    forall r :: r in Pending(s) ==>
      && r.thread.Client?
      && (s.phase.Running? ==> ProducerOf(s, r.thread.id).saw != Some(false))
  }

  ghost predicate Phased(s: State) {
    && (s.active <==> s.phase.Running?)
    && (s.started <==> s.phase != Unstarted)
    && (s.phase.Unstarted? || s.phase.Claimed? ==> s.workers == 0)
    && s.workers <= 1
    && (s.phase.Unstarted? || s.phase.Claimed? || s.phase.Spawned? ==> s.queue == [])
    && (s.phase.Unstarted? || s.phase.Claimed? || s.phase.Spawned? || s.phase.Running? ==> s.lost == [])
    && (forall t :: ProducerOf(s, t).saw == Some(true) ==> s.phase.Running? || s.phase.Deactivated? || s.phase.Dead?)
  }

  ghost predicate Inv(s: State) {
    && Phased(s)
    && Sequenced(Stream(s), s)
    && Accounted(s)
    && Queued(s)
  }

  lemma PhasedStep(s: State, e: Event)
    requires Phased(s)
    ensures Phased(Step(s, e))
  {
    var s' := Step(s, e);
    forall t | ProducerOf(s', t).saw == Some(true)
      ensures s'.phase.Running? || s'.phase.Deactivated? || s'.phase.Dead?
    {
      assert ProducerOf(s, t).saw == Some(true) || (e == Decide(t) && s.active);
    }
  }

  /** A record may go between two parts when it is the newest of its thread and the back holds none of them. */
  lemma Insert(front: seq<Record>, back: seq<Record>, r: Record)
    requires InOrder(front + back)
    requires forall q :: q in front && q.thread == r.thread ==> q.index < r.index
    requires forall q :: q in back ==> q.thread != r.thread
    ensures InOrder(front + [r] + back)
  {
    var all, was, n := front + [r] + back, front + back, |front|;
    forall i, j | 0 <= i < j < |all| && all[i].thread == all[j].thread ensures all[i].index < all[j].index {
      if j == n {
        assert all[i] == front[i];
      } else if i != n {
        assert all[i] == was[if i < n then i else i - 1] && all[j] == was[if j < n then j else j - 1];
      }
    }
  }

  /** The stream grows by the next record of one thread, placed before parts that hold none of that thread's. */
  lemma Grow(s: State, s': State, front: seq<Record>, back: seq<Record>, r: Record)
    requires Sequenced(front + back, s) && r.index == NextOf(s, r.thread)
    requires forall q :: q in back ==> q.thread != r.thread
    requires forall t :: NextOf(s', t) == NextOf(s, t) + if t == r.thread then 1 else 0
    ensures Sequenced(front + [r] + back, s')
  {
    assert forall q :: q in front || q in back ==> q in front + back;
    Insert(front, back, r);
    assert forall q :: q in front + [r] + back ==> q in front + back || q == r;
  }

  lemma Shorter(records: seq<Record>, front: seq<Record>)
    requires InOrder(records) && |front| <= |records| && forall i :: 0 <= i < |front| ==> front[i] == records[i]
    ensures InOrder(front)
  {
  }

  lemma SequencedStep(s: State, e: Event)
    requires Inv(s)
    ensures Sequenced(Stream(Step(s, e)), Step(s, e))
  {
    match e
    case Act(t) => SequencedAct(s, t);
    case WorkerLog => SequencedWorkerLog(s);
    case Die => SequencedDie(s);
    case _ =>
      StreamUnchanged(s, e);
      CountersUnchanged(s, e);
  }

  lemma StreamUnchanged(s: State, e: Event)
    requires Phased(s) && !e.Act? && !e.WorkerLog? && !e.Die?
    ensures Stream(Step(s, e)) == Stream(s)
  {
    match e
    case Receive => ReceiveMoves(s);
    case EmitHand => EmitMoves(s);
    case _ => AheadUnchanged(s, e);
  }

  lemma AheadUnchanged(s: State, e: Event)
    requires Phased(s) && !e.Act? && !e.WorkerLog? && !e.Die? && !e.Receive? && !e.EmitHand?
    ensures Step(s, e).emitted == s.emitted && Ahead(Step(s, e)) == Ahead(s)
  {
  }

  lemma ReceiveMoves(s: State)
    ensures Stream(Step(s, Receive)) == Stream(s)
  {
    if s.phase == Running(None) && s.queue != [] {
      FirstAndRest(s.queue);
    }
  }

  lemma FirstAndRest(queue: seq<Record>)
    requires queue != []
    ensures [queue[0]] + queue[1..] == [] + queue
  {
  }

  lemma EmitMoves(s: State)
    ensures Stream(Step(s, EmitHand)) == Stream(s)
  {
    Regroup(s.emitted, Hand(s), s.queue);
  }

  lemma Regroup(emitted: seq<Record>, hand: seq<Record>, queue: seq<Record>)
    ensures emitted + (hand + queue) == (emitted + hand) + ([] + queue)
  {
  }

  lemma CountersUnchanged(s: State, e: Event)
    requires !e.Act? && !e.WorkerLog?
    ensures forall t :: NextOf(Step(s, e), t) == NextOf(s, t)
  {
  }

  /** A record written past the queue goes before what is still to be written. */
  lemma Emitted(s: State, s': State, r: Record)
    requires Sequenced(Stream(s), s) && r.index == NextOf(s, r.thread)
    requires forall q :: q in Ahead(s) ==> q.thread != r.thread
    requires s'.emitted == s.emitted + [r] && Ahead(s') == Ahead(s)
    requires forall t :: NextOf(s', t) == NextOf(s, t) + if t == r.thread then 1 else 0
    ensures Sequenced(Stream(s'), s')
  {
    Grow(s, s', s.emitted, Ahead(s), r);
  }

  lemma SequencedWorkerLog(s: State)
    requires Inv(s)
    ensures Sequenced(Stream(Step(s, WorkerLog)), Step(s, WorkerLog))
  {
    if s.phase.Running? {
      var s', r := Step(s, WorkerLog), Record(OnWorker, s.workerNext);
      assert Ahead(s') == Ahead(s);
      assert forall t :: NextOf(s', t) == NextOf(s, t) + if t == r.thread then 1 else 0;
      Emitted(s, s', r);
    }
  }

  lemma SequencedDie(s: State)
    requires Inv(s)
    ensures Sequenced(Stream(Step(s, Die)), Step(s, Die))
  {
    CountersUnchanged(s, Die);
    var s' := Step(s, Die);
    if s.phase.Running? {
      assert Stream(s') == s.emitted;
      FrontSequenced(s, s', s.emitted, Ahead(s));
    }
  }

  lemma FrontSequenced(s: State, s': State, front: seq<Record>, back: seq<Record>)
    requires Sequenced(front + back, s) && forall t :: NextOf(s', t) == NextOf(s, t)
    ensures Sequenced(front, s')
  {
    Shorter(front + back, front);
    assert forall q :: q in front ==> q in front + back;
  }

  /** Where the record of an acting producer lands in the stream, if it does. */
  lemma SequencedAct(s: State, t: nat)
    requires Inv(s)
    ensures Sequenced(Stream(Step(s, Act(t))), Step(s, Act(t)))
  {
    var s', p := Step(s, Act(t)), ProducerOf(s, t);
    if p.saw.Some? {
      var r := Record(Client(t), p.next);
      ActCounts(s, t);
      if !(p.saw.value && s.phase != Dead) {
        assert Ahead(s') == Ahead(s);
        Emitted(s, s', r);
      } else if s.phase.Running? {
        ActQueues(s, s', r);
      } else {
        assert Stream(s') == Stream(s);
      }
    }
  }

  lemma ActCounts(s: State, t: nat)
    requires ProducerOf(s, t).saw.Some?
    ensures forall u :: NextOf(Step(s, Act(t)), u) == NextOf(s, u) + if u == Client(t) then 1 else 0
  {
  }

  lemma ActQueues(s: State, s': State, r: Record)
    requires Sequenced(Stream(s), s) && s.phase.Running? && s'.phase == s.phase
    requires s'.emitted == s.emitted && s'.queue == s.queue + [r] && r.index == NextOf(s, r.thread)
    requires forall t :: NextOf(s', t) == NextOf(s, t) + if t == r.thread then 1 else 0
    ensures Sequenced(Stream(s'), s')
  {
    QueueGrows(s.emitted, Hand(s), s.queue, r);
    assert Stream(s) + [] == Stream(s);
    Grow(s, s', Stream(s), [], r);
  }

  lemma QueueGrows(emitted: seq<Record>, hand: seq<Record>, queue: seq<Record>, r: Record)
    ensures emitted + (hand + (queue + [r])) == emitted + (hand + queue) + [r] + []
  {
  }

  /** No step forgets a record. */
  lemma HeldStep(s: State, e: Event, r: Record)
    requires Phased(s) && Held(s, r)
    ensures Held(Step(s, e), r)
  {
    match e
    case Receive => assert s.queue != [] ==> r in s.queue ==> r == s.queue[0] || r in s.queue[1..];
    case Die => assert s.phase.Running? ==> Step(s, Die).lost == s.lost + Hand(s);
    case DropReceiver => assert s.phase == Deactivated ==> Step(s, DropReceiver).lost == s.lost + s.queue;
    case _ =>
  }

  /** A record an acting producer makes is written or queued at once. */
  lemma ActHolds(s: State, t: nat)
    requires ProducerOf(s, t).saw.Some?
    ensures Held(Step(s, Act(t)), Record(Client(t), ProducerOf(s, t).next))
  {
    var r := Record(Client(t), ProducerOf(s, t).next);
    assert r in s.emitted + [r] && r in s.queue + [r];
  }

  /** Only acting makes records. */
  lemma NewRecords(s: State, e: Event, t: nat, k: nat)
    requires ProducerOf(s, t).next <= k < ProducerOf(Step(s, e), t).next
    ensures e == Act(t) && ProducerOf(s, t).saw.Some? && k == ProducerOf(s, t).next
  {
  }

  lemma AccountedStep(s: State, e: Event)
    requires Phased(s) && Accounted(s)
    ensures Accounted(Step(s, e))
  {
    var s' := Step(s, e);
    forall t: nat, k: nat | k < ProducerOf(s', t).next
      ensures Held(s', Record(Client(t), k))
    {
      if k < ProducerOf(s, t).next {
        HeldStep(s, e, Record(Client(t), k));
      } else {
        NewRecords(s, e, t, k);
        ActHolds(s, t);
      }
    }
  }

  /** Whatever is to be written after a step was so before, or is what an acting producer sent. */
  lemma PendingStep(s: State, e: Event, r: Record)
    requires r in Pending(Step(s, e))
    ensures r in Pending(s) ||
            (e.Act? && ProducerOf(s, e.t).saw == Some(true) && r == Record(Client(e.t), ProducerOf(s, e.t).next))
  {
  }

  /** A producer that starts to see the flag down does so with no worker running. */
  lemma SawStep(s: State, e: Event, t: nat)
    requires Phased(s) && Step(s, e).phase.Running? && ProducerOf(Step(s, e), t).saw == Some(false)
    ensures s.phase.Running? ==> ProducerOf(s, t).saw == Some(false)
    ensures !s.phase.Running? ==> Pending(Step(s, e)) == []
  {
  }

  lemma QueuedStep(s: State, e: Event)
    requires Phased(s) && Queued(s)
    ensures Queued(Step(s, e))
  {
    var s' := Step(s, e);
    forall r | r in Pending(s')
      ensures r.thread.Client? && (s'.phase.Running? ==> ProducerOf(s', r.thread.id).saw != Some(false))
    {
      PendingStep(s, e, r);
      if s'.phase.Running? && ProducerOf(s', r.thread.id).saw == Some(false) {
        SawStep(s, e, r.thread.id);
      }
    }
  }

  lemma InvStep(s: State, e: Event)
    requires Inv(s)
    ensures Inv(Step(s, e))
  {
    PhasedStep(s, e);
    SequencedStep(s, e);
    AccountedStep(s, e);
    QueuedStep(s, e);
  }

  lemma {:induction false} EveryRunKeepsInv(s: State, es: seq<Event>)
    requires Inv(s)
    ensures Inv(Run(s, es))
    decreases es
  {
    if es != [] {
      InvStep(s, es[0]);
      EveryRunKeepsInv(Step(s, es[0]), es[1..]);
    }
  }

  /**
   * On every interleaving: at most one worker, no record written twice, each
   * thread's written records in its own order, nothing from the worker in its
   * own queue, and nothing lost before the worker dies.
   */
  lemma LoggingIsSafe(es: seq<Event>)
    ensures var s := Run(INITIAL, es);
      && s.workers <= 1
      && (forall i, j :: 0 <= i < j < |s.emitted| ==> s.emitted[i] != s.emitted[j])
      && (forall i, j :: 0 <= i < j < |s.emitted| && s.emitted[i].thread == s.emitted[j].thread ==>
            s.emitted[i].index < s.emitted[j].index)
      && (forall r :: r in Pending(s) ==> r.thread.Client?)
      && (s.lost != [] ==> s.phase.Deactivated? || s.phase.Dead?)
      && (forall t: nat, k: nat :: k < ProducerOf(s, t).next ==> Held(s, Record(Client(t), k)))
  {
    assert Inv(INITIAL);
    EveryRunKeepsInv(INITIAL, es);
    var s := Run(INITIAL, es);
    Shorter(Stream(s), s.emitted);
  }

  /** A living worker left alone writes its message and then the whole queue, oldest first. */
  lemma {:induction false} WorkerDrains(s: State) returns (es: seq<Event>)
    requires s.phase.Running?
    ensures Run(s, es) == s.(phase := Running(None), queue := [], emitted := Stream(s))
    ensures forall e :: e in es ==> e == Receive || e == EmitHand
    decreases |s.queue|, |Hand(s)|
  {
    if s.phase.hand.Some? {
      var written := Step(s, EmitHand);
      EmitMoves(s);
      var rest := WorkerDrains(written);
      es := [EmitHand] + rest;
      assert es[1..] == rest;
    } else if s.queue != [] {
      var taken := Step(s, Receive);
      ReceiveMoves(s);
      var rest := WorkerDrains(taken);
      es := [Receive] + rest;
      assert es[1..] == rest;
    } else {
      es := [];
    }
  }

  // ---- What does happen --------------------------------------------------

  lemma {:induction false} RunConcat(s: State, a: seq<Event>, b: seq<Event>)
    ensures Run(s, a + b) == Run(Run(s, a), b)
    decreases a
  {
    if a == [] {
      assert a + b == b;
    } else {
      assert (a + b)[1..] == a[1..] + b;
      RunConcat(Step(s, a[0]), a[1..], b);
    }
  }

  lemma RunOne(s: State, e: Event)
    ensures Run(s, [e]) == Step(s, e)
  {
    assert [e][1..] == [];
  }

  /** Client calls, and later callers of `start`. */
  predicate Bystanders(es: seq<Event>) {
    forall e :: e in es ==> e.Decide? || e.Act? || e.StartSwap?
  }

  lemma {:induction false} BystandersWait(s: State, es: seq<Event>)
    requires Bystanders(es) && s.started
    ensures var t := Run(s, es);
      t.phase == s.phase && t.active == s.active && t.workers == s.workers && t.lost == s.lost && t.started
    decreases es
  {
    if es != [] {
      assert es[0] in es;
      BystandersWait(Step(s, es[0]), es[1..]);
    }
  }

  /** The steps of the caller that wins the race to start, with whatever others do in between. */
  function StartUp(ok: bool, claimed: seq<Event>, spawned: seq<Event>): seq<Event> {
    [StartSwap] + claimed + [Spawn(ok)] + spawned + [Activate]
  }

  /** Starting works: once the winner has spawned the thread and it has raised the flag, the one worker is running. */
  lemma WorkerStarts(s: State, ok: bool, claimed: seq<Event>, spawned: seq<Event>)
    requires Inv(s) && s.phase == Unstarted && Bystanders(claimed) && Bystanders(spawned)
    ensures var t := Run(s, StartUp(ok, claimed, spawned));
      && Inv(t) && t.lost == []
      && t.phase == (if ok then Running(None) else Dead)
      && t.active == ok && t.workers == (if ok then 1 else 0)
  {
    var s1 := Step(s, StartSwap);
    var s2 := Run(s1, claimed);
    var s3 := Step(s2, Spawn(ok));
    var s4 := Run(s3, spawned);
    RunOne(s, StartSwap);
    RunOne(s2, Spawn(ok));
    RunOne(s4, Activate);
    RunConcat(s, [StartSwap], claimed);
    RunConcat(s, [StartSwap] + claimed, [Spawn(ok)]);
    RunConcat(s, [StartSwap] + claimed + [Spawn(ok)], spawned);
    RunConcat(s, [StartSwap] + claimed + [Spawn(ok)] + spawned, [Activate]);
    BystandersWait(s1, claimed);
    BystandersWait(s3, spawned);
    EveryRunKeepsInv(s, StartUp(ok, claimed, spawned));
  }

  /** The worker is given up only for a reason: the spawn failed, or the worker died and its receiver was dropped. */
  lemma {:induction false} DeadForAReason(s: State, es: seq<Event>)
    requires Phased(s)
    ensures Run(s, es).phase == Dead ==>
      s.phase == Dead || Spawn(false) in es || ((s.phase == Deactivated || Die in es) && DropReceiver in es)
    ensures Run(s, es).phase == Deactivated ==> s.phase == Deactivated || Die in es
    ensures s.phase.Running? && !Run(s, es).phase.Running? ==> Die in es
    decreases es
  {
    if es != [] {
      assert es[0] in es && forall e :: e in es[1..] ==> e in es;
      assert s.phase.Running? ==> Step(s, es[0]).phase.Running? || es[0] == Die;
      PhasedStep(s, es[0]);
      DeadForAReason(Step(s, es[0]), es[1..]);
    }
  }

  /** No event of the run is a step of producer `t`. */
  predicate OthersOnly(es: seq<Event>, t: nat) {
    forall e :: e in es ==> e != Decide(t) && e != Act(t)
  }

  lemma OtherKeepsProducer(s: State, e: Event, t: nat)
    requires e != Decide(t) && e != Act(t)
    ensures ProducerOf(Step(s, e), t) == ProducerOf(s, t)
  {
  }

  lemma {:induction false} OthersKeepProducer(s: State, es: seq<Event>, t: nat)
    requires OthersOnly(es, t)
    ensures ProducerOf(Run(s, es), t) == ProducerOf(s, t)
    decreases es
  {
    if es != [] {
      assert es[0] in es && forall e :: e in es[1..] ==> e in es;
      OtherKeepsProducer(s, es[0], t);
      OthersKeepProducer(Step(s, es[0]), es[1..], t);
    }
  }

  /**
   * One client call, whatever others do between its two steps: with the flag up when it looked and a
   * receiver still there when it sends, its record goes to the back of the queue and nothing is
   * written; otherwise the record is written on the spot and nothing is queued.
   */
  lemma ClientCall(s: State, t: nat, between: seq<Event>)
    requires ProducerOf(s, t).saw.None? && OthersOnly(between, t)
    ensures var before := Run(Step(s, Decide(t)), between);
      var after, r := Step(before, Act(t)), Record(Client(t), ProducerOf(s, t).next);
      && ProducerOf(after, t) == Producer(ProducerOf(s, t).next + 1, None) && after.phase == before.phase
      && if s.active && before.phase != Dead then
           after.queue == before.queue + [r] && after.emitted == before.emitted
         else after.queue == before.queue && after.emitted == before.emitted + [r]
  {
    OthersKeepProducer(Step(s, Decide(t)), between, t);
  }

  /** The worker's own record is written on the spot, past its queue. */
  lemma WorkerCall(s: State)
    requires s.phase.Running?
    ensures Step(s, WorkerLog).emitted == s.emitted + [Record(OnWorker, s.workerNext)]
    ensures Pending(Step(s, WorkerLog)) == Pending(s) && Step(s, WorkerLog).workerNext == s.workerNext + 1
  {
  }

  /** A death takes the flag down at once, and what was in hand or queued by the time the receiver goes is lost. */
  lemma WorkerDies(s: State, meanwhile: seq<Event>)
    requires Inv(s) && s.phase.Running? && Bystanders(meanwhile)
    ensures !Step(s, Die).active
    ensures var before, t := Run(Step(s, Die), meanwhile), Run(s, [Die] + meanwhile + [DropReceiver]);
      && t.phase == Dead && !t.active && t.queue == [] && t.lost == Hand(s) + before.queue
      && t.emitted == before.emitted
  {
    var before := Run(Step(s, Die), meanwhile);
    RunOne(s, Die);
    RunOne(before, DropReceiver);
    RunConcat(s, [Die], meanwhile);
    RunConcat(s, [Die] + meanwhile, [DropReceiver]);
    BystandersWait(Step(s, Die), meanwhile);
  }

  /** From any reachable state with a living worker, its own steps can bring every record made so far to the log. */
  lemma EverythingCanBeWritten(s: State) returns (es: seq<Event>)
    requires Inv(s) && s.phase.Running?
    ensures forall e :: e in es ==> e == Receive || e == EmitHand
    ensures var t := Run(s, es);
      && t.phase == Running(None) && t.queue == [] && t.lost == []
      && forall u: nat, k: nat :: k < ProducerOf(s, u).next ==> Record(Client(u), k) in t.emitted
  {
    es := WorkerDrains(s);
    EveryRunKeepsInv(s, es);
    var t := Run(s, es);
    assert Accounted(t);
    forall u: nat, k: nat | k < ProducerOf(s, u).next
      ensures Record(Client(u), k) in t.emitted
    {
      assert Held(t, Record(Client(u), k));
    }
  }
}
