/** The translation queue: grouping by language pair, and the worker between its two channels. */
module TranslateQueue {
  import opened Packing
  import opened Translation

  const MAX_BATCH: nat := 32
  const WORK_QUEUE_DEPTH: nat := 4 * MAX_BATCH

  datatype Pair = Pair(src: string, tgt: string)

  function PairOf(r: Request): Pair {
    Pair(r.src, r.tgt)
  }

  /** The requests of one pair, in order. */
  function OfPair(batch: seq<Request>, p: Pair): seq<Request> {
    if batch == [] then []
    else
      var last := batch[|batch| - 1];
      OfPair(batch[..|batch| - 1], p) + if PairOf(last) == p then [last] else []
  }

  type Group = g: seq<Request> | g != [] witness [Request("", [], "", "")]

  /** `batch` with the requests of each language pair gathered, pairs in order of first appearance. */
  function Groups(batch: seq<Request>): seq<Group> {
    if batch == [] then [] else AddTo(Groups(batch[..|batch| - 1]), batch[|batch| - 1])
  }

  /** `req` joins the first group of its pair, or starts one at the end. */
  function AddTo(groups: seq<Group>, req: Request): seq<Group> {
    if groups == [] then [[req]]
    else if PairOf(groups[0][0]) == PairOf(req) then [groups[0] + [req]] + groups[1..]
    else [groups[0]] + AddTo(groups[1..], req)
  }

  function PairOfGroup(g: Group): Pair {
    PairOf(g[0])
  }

  ghost predicate HasGroup(groups: seq<Group>, p: Pair) {
    exists g :: 0 <= g < |groups| && PairOfGroup(groups[g]) == p
  }

  /** The linear scan for the group of `p`. */
  method FindGroup(groups: seq<Group>, p: Pair) returns (g: nat)
    ensures g <= |groups| && forall h :: 0 <= h < g ==> PairOfGroup(groups[h]) != p
    ensures g < |groups| ==> PairOfGroup(groups[g]) == p
  {
    g := 0;
    while g < |groups| && PairOfGroup(groups[g]) != p
      invariant g <= |groups| && forall h :: 0 <= h < g ==> PairOfGroup(groups[h]) != p
    {
      g := g + 1;
    }
  }

  method GroupByPair(batch: seq<Request>) returns (groups: seq<Group>)
    ensures groups == Groups(batch)
  {
    groups := [];
    for k := 0 to |batch|
      invariant groups == Groups(batch[..k])
    {
      assert batch[..k + 1][..k] == batch[..k];
      var g := FindGroup(groups, PairOf(batch[k]));
      if g < |groups| {
        AddToJoins(groups, batch[k], g);
        groups := groups[g := groups[g] + [batch[k]]];
      } else {
        AddToStarts(groups, batch[k]);
        groups := groups + [[batch[k]]];
      }
    }
    assert batch[..|batch|] == batch;
  }

  lemma {:induction false} AddToJoins(groups: seq<Group>, req: Request, g: nat)
    requires g < |groups| && PairOfGroup(groups[g]) == PairOf(req)
    requires forall h :: 0 <= h < g ==> PairOfGroup(groups[h]) != PairOf(req)
    ensures AddTo(groups, req) == groups[g := groups[g] + [req]]
  {
    if g > 0 {
      assert PairOfGroup(groups[0]) != PairOf(req);
      AddToJoins(groups[1..], req, g - 1);
    }
  }

  lemma {:induction false} AddToStarts(groups: seq<Group>, req: Request)
    requires !HasGroup(groups, PairOf(req))
    ensures AddTo(groups, req) == groups + [[req]]
  {
    if groups != [] {
      assert PairOfGroup(groups[0]) != PairOf(req);
      assert forall g :: 0 <= g < |groups| - 1 ==> groups[1..][g] == groups[g + 1];
      AddToStarts(groups[1..], req);
    }
  }

  lemma {:induction false} OfPairKeeps(batch: seq<Request>, p: Pair)
    ensures forall r :: r in OfPair(batch, p) <==> r in batch && PairOf(r) == p
  {
    if batch != [] {
      var front, last := batch[..|batch| - 1], batch[|batch| - 1];
      assert batch == front + [last];
      OfPairKeeps(front, p);
    }
  }

  lemma {:induction false} OfPairAppend(a: seq<Request>, b: seq<Request>, p: Pair)
    ensures OfPair(a + b, p) == OfPair(a, p) + OfPair(b, p)
  {
    if b == [] {
      assert a + b == a;
    } else {
      assert (a + b)[..|a + b| - 1] == a + b[..|b| - 1];
      OfPairAppend(a, b[..|b| - 1], p);
    }
  }

  /** Each group is exactly the batch's requests of its pair, in their arrival order. */
  ghost predicate Gathered(groups: seq<Group>, batch: seq<Request>) {
    forall g :: 0 <= g < |groups| ==> groups[g] == OfPair(batch, PairOfGroup(groups[g]))
  }

  /** No two groups share a pair. */
  ghost predicate DistinctPairs(groups: seq<Group>) {
    forall g, h :: 0 <= g < h < |groups| ==> PairOfGroup(groups[g]) != PairOfGroup(groups[h])
  }

  /** A pair without a group has no request in the batch. */
  ghost predicate Covered(groups: seq<Group>, batch: seq<Request>) {
    forall p :: OfPair(batch, p) != [] ==> HasGroup(groups, p)
  }

  /** An order-preserving partition. */
  ghost predicate IsPartition(groups: seq<Group>, batch: seq<Request>) {
    Gathered(groups, batch) && DistinctPairs(groups) && Covered(groups, batch)
  }

  /** One more request extends its own pair's subsequence and no other. */
  lemma OfPairStep(batch: seq<Request>, req: Request, p: Pair)
    ensures OfPair(batch + [req], p) == OfPair(batch, p) + if PairOf(req) == p then [req] else []
  {
    assert (batch + [req])[..|batch|] == batch;
  }

  lemma PairsStay(groups: seq<Group>, after: seq<Group>)
    requires |groups| <= |after|
    requires forall h :: 0 <= h < |groups| ==> PairOfGroup(after[h]) == PairOfGroup(groups[h])
    ensures forall p :: HasGroup(groups, p) ==> HasGroup(after, p)
  {
    forall p | HasGroup(groups, p)
      ensures HasGroup(after, p)
    {
      var g :| 0 <= g < |groups| && PairOfGroup(groups[g]) == p;
      assert PairOfGroup(after[g]) == p;
    }
  }

  /** Whatever pairs had a group keep one, and the new request's pair has one: all pairs stay covered. */
  lemma StaysCovered(groups: seq<Group>, after: seq<Group>, batch: seq<Request>, req: Request)
    requires Covered(groups, batch) && HasGroup(after, PairOf(req))
    requires forall p :: HasGroup(groups, p) ==> HasGroup(after, p)
    ensures Covered(after, batch + [req])
  {
    forall p | OfPair(batch + [req], p) != []
      ensures HasGroup(after, p)
    {
      OfPairStep(batch, req, p);
    }
  }

  lemma JoinPartitions(groups: seq<Group>, batch: seq<Request>, req: Request, g: nat)
    requires IsPartition(groups, batch) && g < |groups| && PairOfGroup(groups[g]) == PairOf(req)
    ensures IsPartition(groups[g := groups[g] + [req]], batch + [req])
  {
    var after := groups[g := groups[g] + [req]];
    forall h | 0 <= h < |after|
      ensures after[h] == OfPair(batch + [req], PairOfGroup(after[h]))
    {
      OfPairStep(batch, req, PairOfGroup(groups[h]));
    }
    PairsStay(groups, after);
    assert HasGroup(groups, PairOf(req));
    StaysCovered(groups, after, batch, req);
  }

  /** A request of a new pair leaves every group as it is. */
  lemma StartGathers(groups: seq<Group>, batch: seq<Request>, req: Request)
    requires IsPartition(groups, batch) && !HasGroup(groups, PairOf(req))
    ensures Gathered(groups, batch + [req])
    ensures forall h :: 0 <= h < |groups| ==> PairOfGroup(groups[h]) != PairOf(req)
    ensures OfPair(batch + [req], PairOf(req)) == [req]
  {
    forall h | 0 <= h < |groups|
      ensures groups[h] == OfPair(batch + [req], PairOfGroup(groups[h]))
    {
      OfPairStep(batch, req, PairOfGroup(groups[h]));
    }
    OfPairStep(batch, req, PairOf(req));
  }

  lemma OneMoreGroup(groups: seq<Group>, own: Group, batch: seq<Request>)
    requires Gathered(groups, batch) && own == OfPair(batch, PairOfGroup(own)) && DistinctPairs(groups)
    requires forall h :: 0 <= h < |groups| ==> PairOfGroup(groups[h]) != PairOfGroup(own)
    ensures Gathered(groups + [own], batch) && DistinctPairs(groups + [own])
    ensures HasGroup(groups + [own], PairOfGroup(own))
    ensures forall p :: HasGroup(groups, p) ==> HasGroup(groups + [own], p)
  {
    assert (groups + [own])[|groups|] == own;
    PairsStay(groups, groups + [own]);
  }

  lemma StartPartitions(groups: seq<Group>, batch: seq<Request>, req: Request)
    requires IsPartition(groups, batch) && !HasGroup(groups, PairOf(req))
    ensures IsPartition(groups + [[req]], batch + [req])
  {
    var own: Group := [req];
    StartGathers(groups, batch, req);
    OneMoreGroup(groups, own, batch + [req]);
    StaysCovered(groups, groups + [own], batch, req);
  }

  lemma {:induction false} GroupsPartition(batch: seq<Request>)
    ensures IsPartition(Groups(batch), batch)
  {
    if batch != [] {
      var front, req := batch[..|batch| - 1], batch[|batch| - 1];
      assert batch == front + [req];
      GroupsPartition(front);
      var before := Groups(front);
      if HasGroup(before, PairOf(req)) {
        var g :| 0 <= g < |before| && PairOfGroup(before[g]) == PairOf(req);
        AddToJoins(before, req, g);
        JoinPartitions(before, front, req, g);
      } else {
        AddToStarts(before, req);
        StartPartitions(before, front, req);
      }
    }
  }

  // ---- Answering a batch -------------------------------------------------

  function Flatten(groups: seq<Group>): seq<Request> {
    if groups == [] then [] else Flatten(groups[..|groups| - 1]) + groups[|groups| - 1]
  }

  /** The completions of a list of groups, in the order they are sent. */
  function Sent(utf8: Encoding, groups: seq<Group>, ask: Session): (sent: seq<Completed>)
    ensures |sent| == |Flatten(groups)|
  {
    if groups == [] then []
    else Sent(utf8, groups[..|groups| - 1], ask) + Completions(utf8, groups[|groups| - 1], ask)
  }

  /** One coalesced batch: the completions the worker sends for it. */
  method TranslateBatch(utf8: Encoding, batch: seq<Request>, ask: Session) returns (sent: seq<Completed>)
    ensures sent == Sent(utf8, Groups(batch), ask)
  {
    var groups := GroupByPair(batch);
    sent := [];
    for g := 0 to |groups|
      invariant sent == Sent(utf8, groups[..g], ask)
    {
      assert groups[..g + 1][..g] == groups[..g];
      var completed := TranslateGroup(utf8, groups[g], ask);
      sent := sent + completed;
    }
    assert groups[..|groups|] == groups;
  }

  /** Every request of the group has the group's pair. */
  ghost predicate Uniform(group: Group) {
    forall r :: r in group ==> PairOf(r) == PairOfGroup(group)
  }

  lemma {:induction false} UniformOfPair(group: Group, p: Pair)
    requires Uniform(group)
    ensures OfPair(group, p) == if PairOfGroup(group) == p then group else []
  {
    var front, last := group[..|group| - 1], group[|group| - 1];
    assert last in group;
    if front == [] {
    } else {
      UniformOfPair(front, p);
    }
  }

  /** The last group contributes to its own pair alone. */
  lemma FlattenStep(groups: seq<Group>, p: Pair)
    requires groups != [] && Uniform(groups[|groups| - 1])
    ensures OfPair(Flatten(groups), p) ==
            OfPair(Flatten(groups[..|groups| - 1]), p) +
            if PairOfGroup(groups[|groups| - 1]) == p then groups[|groups| - 1] else []
  {
    OfPairAppend(Flatten(groups[..|groups| - 1]), groups[|groups| - 1], p);
    UniformOfPair(groups[|groups| - 1], p);
  }

  lemma {:induction false} FlattenWithout(groups: seq<Group>, p: Pair)
    requires forall g :: 0 <= g < |groups| ==> Uniform(groups[g]) && PairOfGroup(groups[g]) != p
    ensures OfPair(Flatten(groups), p) == []
  {
    if groups != [] {
      FlattenStep(groups, p);
      FlattenWithout(groups[..|groups| - 1], p);
    }
  }

  lemma {:induction false} FlattenOfGroup(groups: seq<Group>, g: nat)
    requires g < |groups| && forall h :: 0 <= h < |groups| ==> Uniform(groups[h])
    requires forall h, k :: 0 <= h < k < |groups| ==> PairOfGroup(groups[h]) != PairOfGroup(groups[k])
    ensures OfPair(Flatten(groups), PairOfGroup(groups[g])) == groups[g]
  {
    var p, front := PairOfGroup(groups[g]), groups[..|groups| - 1];
    FlattenStep(groups, p);
    if g == |groups| - 1 {
      FlattenWithout(front, p);
    } else {
      FlattenOfGroup(front, g);
    }
  }

  /** Grouping keeps each pair's requests, all of them and in their arrival order. */
  lemma GroupingKeepsPairs(batch: seq<Request>, p: Pair)
    ensures OfPair(Flatten(Groups(batch)), p) == OfPair(batch, p)
  {
    var groups := Groups(batch);
    GroupsPartition(batch);
    forall g | 0 <= g < |groups|
      ensures Uniform(groups[g])
    {
      OfPairKeeps(batch, PairOfGroup(groups[g]));
    }
    if HasGroup(groups, p) {
      var g :| 0 <= g < |groups| && PairOfGroup(groups[g]) == p;
      FlattenOfGroup(groups, g);
    } else {
      FlattenWithout(groups, p);
    }
  }

  // ---- The worker between its channels -----------------------------------

  /** A completion together with the request it was made for. */
  datatype Answer = Answer(request: Request, completed: Completed)

  function Requests(answers: seq<Answer>): (requests: seq<Request>)
    ensures |requests| == |answers|
  {
    seq(|answers|, i requires 0 <= i < |answers| => answers[i].request)
  }

  function Answers(utf8: Encoding, batch: seq<Request>, ask: Session): (answers: seq<Answer>)
    ensures Requests(answers) == Flatten(Groups(batch))
  {
    var requests, sent := Flatten(Groups(batch)), Sent(utf8, Groups(batch), ask);
    seq(|requests|, i requires 0 <= i < |requests| => Answer(requests[i], sent[i]))
  }

  lemma {:induction false} SentIds(utf8: Encoding, groups: seq<Group>, ask: Session)
    ensures forall i :: 0 <= i < |Flatten(groups)| ==> Sent(utf8, groups, ask)[i].id == Flatten(groups)[i].id
  {
    if groups != [] {
      SentIds(utf8, groups[..|groups| - 1], ask);
    }
  }

  /**
   * `accepted` and `delivered` are the histories at the two ends. Between them: the bounded work
   * queue, the batch being coalesced, the completions being sent, and the unbounded done queue.
   */
  datatype State = State(accepted: seq<Request>, work: seq<Request>, batch: seq<Request>,
                         sending: seq<Answer>, done: seq<Answer>, delivered: seq<Answer>)

  /**
   * One channel operation of the game thread or the worker. The empty poll that ends coalescing is
   * not a step of its own, so a batch may be sealed at any size.
   */
  datatype Step = Enqueue(req: Request) | Receive | Coalesce | Translate(ask: Session) | Send | Drain(max: nat)

  const START := State([], [], [], [], [], [])

  predicate Enabled(s: State, step: Step) {
    match step
    case Enqueue(_) => |s.work| < WORK_QUEUE_DEPTH
    case Receive => s.batch == [] && s.sending == [] && s.work != []
    case Coalesce => 0 < |s.batch| < MAX_BATCH && s.work != []
    case Translate(_) => s.batch != []
    case Send => s.sending != []
    case Drain(_) => true
  }

  /** A step that is not enabled changes nothing: a full queue turns the request away. */
  function Next(utf8: Encoding, s: State, step: Step): State {
    if !Enabled(s, step) then s
    else
      match step
      case Enqueue(req) => s.(accepted := s.accepted + [req], work := s.work + [req])
      case Receive => s.(batch := [s.work[0]], work := s.work[1..])
      case Coalesce => s.(batch := s.batch + [s.work[0]], work := s.work[1..])
      case Translate(ask) => s.(batch := [], sending := s.sending + Answers(utf8, s.batch, ask))
      case Send => s.(done := s.done + [s.sending[0]], sending := s.sending[1..])
      case Drain(max) =>
        var n := if max < |s.done| then max else |s.done|;
        s.(delivered := s.delivered + s.done[..n], done := s.done[n..])
  }

  function Run(utf8: Encoding, steps: seq<Step>): State {
    if steps == [] then START else Next(utf8, Run(utf8, steps[..|steps| - 1]), steps[|steps| - 1])
  }

  function Finished(s: State): seq<Answer> {
    s.delivered + s.done + s.sending
  }

  function Queued(s: State): seq<Request> {
    s.batch + s.work
  }

  /** Every accepted request, at its place on the way from one end to the other. */
  function Line(s: State): seq<Request> {
    Requests(Finished(s)) + Queued(s)
  }

  ghost predicate Inv(s: State) {
    && |s.work| <= WORK_QUEUE_DEPTH && |s.batch| <= MAX_BATCH && (s.batch == [] || s.sending == [])
    && (forall p :: OfPair(Line(s), p) == OfPair(s.accepted, p))
    && forall a :: a in Finished(s) ==> a.completed.id == a.request.id
  }

  lemma MovingOne<T>(front: seq<T>, back: seq<T>, n: nat)
    requires n <= |back|
    ensures (front + back[..n]) + back[n..] == front + back
  {
    assert back[..n] + back[n..] == back;
  }

  lemma FinishedStep(utf8: Encoding, s: State, step: Step)
    requires Enabled(s, step) && !step.Translate?
    ensures Finished(Next(utf8, s, step)) == Finished(s)
  {
    match step
    case Send =>
      assert [s.sending[0]] == s.sending[..1];
      MovingOne(s.delivered + s.done, s.sending, 1);
      assert s.delivered + (s.done + s.sending[..1]) == (s.delivered + s.done) + s.sending[..1];
    case Drain(max) =>
      MovingOne(s.delivered, s.done, if max < |s.done| then max else |s.done|);
    case _ =>
  }

  lemma QueuedStep(utf8: Encoding, s: State, step: Step)
    requires Enabled(s, step) && !step.Translate?
    ensures Queued(Next(utf8, s, step)) == Queued(s) + if step.Enqueue? then [step.req] else []
  {
    if step.Receive? || step.Coalesce? {
      assert [s.work[0]] == s.work[..1];
      MovingOne(s.batch, s.work, 1);
    }
  }

  lemma LineStep(utf8: Encoding, s: State, step: Step)
    requires Enabled(s, step) && !step.Translate?
    ensures Line(Next(utf8, s, step)) == Line(s) + if step.Enqueue? then [step.req] else []
  {
    FinishedStep(utf8, s, step);
    QueuedStep(utf8, s, step);
  }

  lemma AnswersCarryIds(utf8: Encoding, batch: seq<Request>, ask: Session)
    ensures forall a :: a in Answers(utf8, batch, ask) ==> a.completed.id == a.request.id
  {
    SentIds(utf8, Groups(batch), ask);
  }

  lemma RequestsAppend(a: seq<Answer>, b: seq<Answer>)
    ensures Requests(a + b) == Requests(a) + Requests(b)
  {
  }

  lemma TranslateKeepsPairs(s: State, t: State, answers: seq<Answer>, p: Pair)
    requires Finished(t) == Finished(s) + answers && t.batch == [] && t.work == s.work
    requires Requests(answers) == Flatten(Groups(s.batch))
    ensures OfPair(Line(t), p) == OfPair(Line(s), p)
  {
    RequestsAppend(Finished(s), answers);
    GroupingKeepsPairs(s.batch, p);
    LineOfPair(s, p);
    LineOfPair(t, p);
    OfPairAppend(Requests(Finished(s)), Requests(answers), p);
  }

  lemma TranslateKeepsInv(utf8: Encoding, s: State, ask: Session)
    requires Inv(s) && s.batch != []
    ensures Inv(Next(utf8, s, Translate(ask)))
  {
    var t, answers := Next(utf8, s, Translate(ask)), Answers(utf8, s.batch, ask);
    AnswersCarryIds(utf8, s.batch, ask);
    assert Finished(t) == Finished(s) + answers;
    forall p
      ensures OfPair(Line(t), p) == OfPair(t.accepted, p)
    {
      TranslateKeepsPairs(s, t, answers, p);
    }
  }

  lemma InvStep(utf8: Encoding, s: State, step: Step)
    requires Inv(s)
    ensures Inv(Next(utf8, s, step))
  {
    var t := Next(utf8, s, step);
    if !Enabled(s, step) {
    } else if step.Translate? {
      TranslateKeepsInv(utf8, s, step.ask);
    } else {
      FinishedStep(utf8, s, step);
      LineStep(utf8, s, step);
      forall p
        ensures OfPair(Line(t), p) == OfPair(t.accepted, p)
      {
        if step.Enqueue? {
          OfPairStep(Line(s), step.req, p);
          OfPairStep(s.accepted, step.req, p);
        } else {
          assert Line(t) == Line(s);
        }
      }
    }
  }

  lemma LineOfPair(s: State, p: Pair)
    ensures OfPair(Line(s), p) == OfPair(Requests(Finished(s)), p) + OfPair(s.batch, p) + OfPair(s.work, p)
  {
    OfPairAppend(Requests(Finished(s)), Queued(s), p);
    OfPairAppend(s.batch, s.work, p);
  }

  lemma {:induction false} RunsKeepInv(utf8: Encoding, steps: seq<Step>)
    ensures Inv(Run(utf8, steps))
  {
    if steps != [] {
      RunsKeepInv(utf8, steps[..|steps| - 1]);
      InvStep(utf8, Run(utf8, steps[..|steps| - 1]), steps[|steps| - 1]);
    }
  }

  lemma {:induction false} CountOfPair(batch: seq<Request>, r: Request)
    ensures multiset(batch)[r] == multiset(OfPair(batch, PairOf(r)))[r]
  {
    if batch != [] {
      var front, last := batch[..|batch| - 1], batch[|batch| - 1];
      assert batch == front + [last];
      CountOfPair(front, r);
    }
  }

  predicate AtRest(s: State) {
    s.work == [] && s.batch == [] && s.sending == []
  }

  /**
   * On every run, and once the worker has caught up: each accepted request has exactly one
   * completion, which carries its id, and the completions of one language pair come in the order
   * their requests were accepted.
   */
  lemma EachRequestIsAnsweredOnce(utf8: Encoding, steps: seq<Step>)
    requires AtRest(Run(utf8, steps))
    ensures var s := Run(utf8, steps); var answers := s.delivered + s.done;
            && multiset(Requests(answers)) == multiset(s.accepted)
            && (forall p :: OfPair(Requests(answers), p) == OfPair(s.accepted, p))
            && forall a :: a in answers ==> a.completed.id == a.request.id
  {
    RunsKeepInv(utf8, steps);
    var s := Run(utf8, steps);
    assert Line(s) == Requests(s.delivered + s.done);
    forall r: Request
      ensures multiset(Line(s))[r] == multiset(s.accepted)[r]
    {
      CountOfPair(Line(s), r);
      CountOfPair(s.accepted, r);
    }
  }

  /** Channel operations the worker still has to make for what has been accepted. */
  function Remaining(s: State): nat {
    3 * |s.work| + 2 * |s.batch| + |s.sending|
  }

  /** The worker's next operation. */
  function WorkerStep(s: State, ask: Session): Step {
    if s.sending != [] then Send
    else if s.batch == [] then Receive
    else if s.work != [] && |s.batch| < MAX_BATCH then Coalesce
    else Translate(ask)
  }

  lemma {:induction false} FlattenLength(groups: seq<Group>, req: Request)
    ensures |Flatten(AddTo(groups, req))| == |Flatten(groups)| + 1
    decreases |groups|
  {
    if groups == [] {
      assert [[req]][..0] == [];
    } else if PairOfGroup(groups[0]) == PairOf(req) {
      FlattenFront(groups[0], groups[1..]);
      FlattenFront(groups[0] + [req], groups[1..]);
      assert [groups[0]] + groups[1..] == groups;
    } else {
      FlattenLength(groups[1..], req);
      FlattenFront(groups[0], groups[1..]);
      FlattenFront(groups[0], AddTo(groups[1..], req));
      assert [groups[0]] + groups[1..] == groups;
    }
  }

  lemma {:induction false} FlattenFront(first: Group, rest: seq<Group>)
    ensures Flatten([first] + rest) == first + Flatten(rest)
  {
    if rest == [] {
      assert [first] + rest == [first] && [first][..0] == [];
    } else {
      FlattenFront(first, rest[..|rest| - 1]);
      assert ([first] + rest)[..|rest|] == [first] + rest[..|rest| - 1];
    }
  }

  lemma {:induction false} GroupingKeepsLength(batch: seq<Request>)
    ensures |Flatten(Groups(batch))| == |batch|
  {
    if batch != [] {
      GroupingKeepsLength(batch[..|batch| - 1]);
      FlattenLength(Groups(batch[..|batch| - 1]), batch[|batch| - 1]);
    }
  }

  /** The worker never stalls: until it is at rest its next operation is enabled and brings it closer. */
  lemma WorkerAdvances(utf8: Encoding, s: State, ask: Session)
    requires Inv(s) && !AtRest(s)
    ensures Enabled(s, WorkerStep(s, ask))
    ensures Remaining(Next(utf8, s, WorkerStep(s, ask))) < Remaining(s)
  {
    GroupingKeepsLength(s.batch);
  }

  // ---- Nothing is left behind --------------------------------------------

  /** The poll: take what is done, oldest first, at most `max` of it. */
  method DrainCompleted(done: seq<Answer>, max: nat) returns (out: seq<Answer>, left: seq<Answer>)
    ensures out + left == done
    ensures |out| == if max < |done| then max else |done|
  {
    out, left := [], done;
    while |out| < max && left != []
      invariant out + left == done && |out| <= max
    {
      assert out + left == (out + [left[0]]) + left[1..];
      out, left := out + [left[0]], left[1..];
    }
  }

  /** A drain hands over the oldest completions, as many as asked for or all there are, and keeps the others. */
  lemma DrainHandsOver(utf8: Encoding, s: State, max: nat)
    ensures var t := Next(utf8, s, Drain(max));
      && t.delivered + t.done == s.delivered + s.done
      && |t.delivered| == |s.delivered| + (if max < |s.done| then max else |s.done|)
      && t == s.(delivered := t.delivered, done := t.done)
  {
    MovingOne(s.delivered, s.done, if max < |s.done| then max else |s.done|);
  }

  /** A request is taken, behind all others, exactly when the queue has room; otherwise nothing happens. */
  lemma EnqueueIsTakenIff(utf8: Encoding, s: State, req: Request)
    ensures Next(utf8, s, Enqueue(req)) ==
      if |s.work| < 4 * 32 then s.(accepted := s.accepted + [req], work := s.work + [req]) else s
  {
  }

  lemma RunSnoc(utf8: Encoding, steps: seq<Step>, step: Step)
    ensures Run(utf8, steps + [step]) == Next(utf8, Run(utf8, steps), step)
  {
    assert (steps + [step])[..|steps|] == steps;
  }

  /** What the worker does of its own. */
  predicate OfWorker(step: Step) {
    step.Receive? || step.Coalesce? || step.Translate? || step.Send?
  }

  lemma WorkerKeepsEnds(utf8: Encoding, s: State, step: Step)
    requires OfWorker(step)
    ensures Next(utf8, s, step).accepted == s.accepted && Next(utf8, s, step).delivered == s.delivered
  {
  }

  /** One step of the worker toward rest. */
  lemma Advanced(utf8: Encoding, steps: seq<Step>, ask: Session) returns (step: Step)
    requires !AtRest(Run(utf8, steps))
    ensures OfWorker(step) && SameEnds(utf8, steps, steps + [step])
    ensures Remaining(Run(utf8, steps + [step])) < Remaining(Run(utf8, steps))
  {
    var s := Run(utf8, steps);
    step := WorkerStep(s, ask);
    RunsKeepInv(utf8, steps);
    WorkerAdvances(utf8, s, ask);
    WorkerKeepsEnds(utf8, s, step);
    RunSnoc(utf8, steps, step);
  }

  /** Nothing was accepted or handed back between two points of a run. */
  predicate SameEnds(utf8: Encoding, earlier: seq<Step>, later: seq<Step>) {
    && Run(utf8, later).accepted == Run(utf8, earlier).accepted
    && Run(utf8, later).delivered == Run(utf8, earlier).delivered
  }

  lemma Regroup(steps: seq<Step>, step: Step, rest: seq<Step>)
    ensures steps + [step] + rest == steps + ([step] + rest)
  {
  }

  /** After any run the worker, left alone, can come to rest. */
  lemma {:induction false} CatchesUp(utf8: Encoding, steps: seq<Step>, ask: Session) returns (more: seq<Step>)
    ensures forall step :: step in more ==> OfWorker(step)
    ensures AtRest(Run(utf8, steps + more)) && SameEnds(utf8, steps, steps + more)
    decreases Remaining(Run(utf8, steps))
  {
    if AtRest(Run(utf8, steps)) {
      more := [];
      assert steps + more == steps;
    } else {
      var step := Advanced(utf8, steps, ask);
      var rest := CatchesUp(utf8, steps + [step], ask);
      more := [step] + rest;
      Regroup(steps, step, rest);
    }
  }

  /** With the worker at rest, one poll of everything has handed back a completion for each accepted request. */
  lemma EverythingIsHandedBack(utf8: Encoding, steps: seq<Step>, max: nat)
    requires AtRest(Run(utf8, steps)) && max >= |Run(utf8, steps).done|
    ensures var s, t := Run(utf8, steps), Run(utf8, steps + [Drain(max)]);
      && t.accepted == s.accepted && t.done == []
      && multiset(Requests(t.delivered)) == multiset(s.accepted)
      && (forall p :: OfPair(Requests(t.delivered), p) == OfPair(s.accepted, p))
      && forall a :: a in t.delivered ==> a.completed.id == a.request.id
  {
    var s := Run(utf8, steps);
    EachRequestIsAnsweredOnce(utf8, steps);
    RunSnoc(utf8, steps, Drain(max));
    DrainHandsOver(utf8, s, max);
    var t := Next(utf8, s, Drain(max));
    assert |t.done| == 0;
    assert t.delivered + t.done == t.delivered;
  }

  // ---- The whole pipeline against translating each request alone ---------

  /** Every call to the translator in the run is answered honestly. */
  ghost predicate HonestRun(steps: seq<Step>, words: Dictionary) {
    forall k :: 0 <= k < |steps| && steps[k].Translate? ==> Honest(steps[k].ask, words)
  }

  /** Each group of the batch packs into the 32-bit offsets of one call. */
  ghost predicate PacksWhole(batch: seq<Request>) {
    forall g :: 0 <= g < |Groups(batch)| ==> |Concat(Texts(Groups(batch)[g]))| <= U32_MAX
  }

  /** Every batch the run translates does so. */
  ghost predicate PacksThroughout(utf8: Encoding, steps: seq<Step>) {
    forall k :: 0 <= k < |steps| && steps[k].Translate? ==> PacksWhole(Run(utf8, steps[..k]).batch)
  }

  predicate Right(utf8: Encoding, a: Answer, words: Dictionary) {
    a.completed == Completed(a.request.id, Expected(utf8, a.request, words))
  }

  ghost predicate AllRight(utf8: Encoding, answers: seq<Answer>, words: Dictionary) {
    forall a :: a in answers ==> Right(utf8, a, words)
  }

  lemma RequestIsRight(utf8: Encoding, group: Group, ask: Session, words: Dictionary, i: nat)
    requires i < |group| && Uniform(group) && Honest(ask, words) && utf8(group[i].text)
    requires |Concat(Texts(group))| <= U32_MAX
    ensures Completions(utf8, group, ask)[i] == Completed(group[i].id, Expected(utf8, group[i], words))
  {
    ConcatAt(Texts(group), i);
    UniformIsSamePair(group);
    BatchingIsInvisible(utf8, group, ask, words, i);
  }

  lemma UniformIsSamePair(group: Group)
    requires Uniform(group)
    ensures SamePair(group)
  {
    forall r | r in group
      ensures r.src == group[0].src && r.tgt == group[0].tgt
    {
      assert PairOf(r) == PairOfGroup(group);
    }
  }

  lemma {:induction false} SentAreRight(utf8: Encoding, groups: seq<Group>, ask: Session, words: Dictionary, i: nat)
    requires Honest(ask, words) && i < |Flatten(groups)|
    requires forall g :: 0 <= g < |groups| ==> Uniform(groups[g]) && |Concat(Texts(groups[g]))| <= U32_MAX
    requires utf8(Flatten(groups)[i].text)
    ensures Sent(utf8, groups, ask)[i] == Completed(Flatten(groups)[i].id, Expected(utf8, Flatten(groups)[i], words))
  {
    var front, last := groups[..|groups| - 1], groups[|groups| - 1];
    if i < |Flatten(front)| {
      SentAreRight(utf8, front, ask, words, i);
    } else {
      RequestIsRight(utf8, last, ask, words, i - |Flatten(front)|);
    }
  }

  /** Grouping neither adds nor drops a request. */
  lemma FlattenKeeps(batch: seq<Request>, r: Request)
    ensures r in Flatten(Groups(batch)) <==> r in batch
  {
    GroupingKeepsPairs(batch, PairOf(r));
    OfPairKeeps(batch, PairOf(r));
    OfPairKeeps(Flatten(Groups(batch)), PairOf(r));
  }

  lemma GroupsAreUniform(batch: seq<Request>)
    ensures forall g :: 0 <= g < |Groups(batch)| ==> Uniform(Groups(batch)[g])
  {
    GroupsPartition(batch);
    forall g | 0 <= g < |Groups(batch)|
      ensures Uniform(Groups(batch)[g])
    {
      OfPairKeeps(batch, PairOfGroup(Groups(batch)[g]));
    }
  }

  lemma BatchIsRight(utf8: Encoding, batch: seq<Request>, ask: Session, words: Dictionary)
    requires Honest(ask, words) && PacksWhole(batch) && forall r :: r in batch ==> utf8(r.text)
    ensures AllRight(utf8, Answers(utf8, batch, ask), words)
  {
    var requests := Flatten(Groups(batch));
    GroupsAreUniform(batch);
    forall i | 0 <= i < |requests|
      ensures Right(utf8, Answers(utf8, batch, ask)[i], words)
    {
      FlattenKeeps(batch, requests[i]);
      SentAreRight(utf8, Groups(batch), ask, words, i);
    }
  }

  lemma LineIsAccepted(s: State, r: Request)
    requires Inv(s) && r in Line(s)
    ensures r in s.accepted
  {
    OfPairKeeps(Line(s), PairOf(r));
    OfPairKeeps(s.accepted, PairOf(r));
  }

  lemma BatchIsAccepted(s: State, r: Request)
    requires Inv(s) && r in s.batch
    ensures r in s.accepted
  {
    assert r in Queued(s);
    LineIsAccepted(s, r);
  }

  lemma TranslatedAreRight(utf8: Encoding, s: State, ask: Session, words: Dictionary)
    requires Inv(s) && s.batch != [] && Honest(ask, words) && PacksWhole(s.batch)
    requires forall r :: r in s.accepted ==> utf8(r.text)
    requires AllRight(utf8, Finished(s), words)
    ensures AllRight(utf8, Finished(Next(utf8, s, Translate(ask))), words)
  {
    var answers := Answers(utf8, s.batch, ask);
    forall r | r in s.batch
      ensures utf8(r.text)
    {
      BatchIsAccepted(s, r);
    }
    BatchIsRight(utf8, s.batch, ask, words);
    assert Finished(Next(utf8, s, Translate(ask))) == Finished(s) + answers;
  }

  lemma StepIsRight(utf8: Encoding, s: State, step: Step, words: Dictionary)
    requires Inv(s) && (step.Translate? ==> Honest(step.ask, words) && PacksWhole(s.batch))
    requires forall r :: r in s.accepted ==> utf8(r.text)
    requires AllRight(utf8, Finished(s), words)
    ensures AllRight(utf8, Finished(Next(utf8, s, step)), words)
  {
    if !Enabled(s, step) {
    } else if step.Translate? {
      TranslatedAreRight(utf8, s, step.ask, words);
    } else {
      FinishedStep(utf8, s, step);
    }
  }

  lemma AcceptedGrows(utf8: Encoding, s: State, step: Step)
    ensures forall r :: r in s.accepted ==> r in Next(utf8, s, step).accepted
  {
  }

  /**
   * End to end: whatever batches the interleaving produced, every completion is the one its request
   * would have had alone, as long as the groups it was packed in kept 32-bit offsets.
   */
  lemma {:induction false} EveryAnswerIsRight(utf8: Encoding, steps: seq<Step>, words: Dictionary)
    requires HonestRun(steps, words) && PacksThroughout(utf8, steps)
    requires forall r :: r in Run(utf8, steps).accepted ==> utf8(r.text)
    ensures AllRight(utf8, Finished(Run(utf8, steps)), words)
  {
    if steps != [] {
      var front, step := steps[..|steps| - 1], steps[|steps| - 1];
      var s := Run(utf8, front);
      assert forall k :: 0 <= k <= |front| ==> front[..k] == steps[..k];
      AcceptedGrows(utf8, s, step);
      EveryAnswerIsRight(utf8, front, words);
      RunsKeepInv(utf8, front);
      StepIsRight(utf8, s, step, words);
    }
  }
}
