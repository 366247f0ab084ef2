/** Any number of `rx_main` and `process_packets` threads over one bounded queue.
    One step is one atomic action of one thread, and the trace chooses which thread
    moves, when a thread is told to stop and how many packets the card has ready. */
module Interleaving {

  /** A received buffer: its number in the order of receipt, and its port. */
  datatype Buf = Buf(id: nat, port: nat)

  type Burst = seq<Buf>

  datatype Thread =
    | RxTop                                // rx_main, asking whether to stop
    | RxCheck                              // asking whether the queue is full
    | RxRecv(i: nat)                       // about to receive from port i
    | RxPush(i: nat, burst: Burst)         // about to push what it received
    | RxDone
    | PpCheck                              // process_packets, asking whether the queue is empty
    | PpPop                                // about to pop
    | PpWork(rest: Burst)                  // going through a popped burst
    | PpDone
  {
    predicate Producer() {
      RxTop? || RxCheck? || RxRecv? || RxPush? || RxDone?
    }

    /** The buffers the thread owns. */
    function Hand(): Burst {
      match this
      case RxPush(_, burst) => burst
      case PpWork(rest) => rest
      case _ => []
    }
  }

  datatype Config = Config(capacity: nat, ports: seq<nat>) {
    predicate Valid() {
      0 < capacity
    }
  }

  datatype State = State(
    threads: seq<Thread>,
    queue: seq<Burst>,
    received: seq<Burst>,   // all bursts ever received, in order
    accepted: seq<Burst>,   // those the queue took
    popped: seq<Burst>,     // those it handed out
    processed: seq<Buf>,
    dropped: seq<Burst>,    // those the queue did not take
    noneTaken: bool)        // some thread found the queue empty after its check

  datatype Move = Move(thread: nat, stop: bool, ready: nat)

  const RX_BURST_MAX: nat := 32

  function Flatten(bursts: seq<Burst>): seq<Buf> {
    if bursts == [] then [] else Flatten(bursts[..|bursts| - 1]) + bursts[|bursts| - 1]
  }

  function Receive(port: nat, next: nat, ready: nat): (b: Burst)
    ensures |b| == if ready <= 32 then ready else 32
    ensures forall k :: 0 <= k < |b| ==> b[k] == Buf(next + k, port)
  {
    seq(if ready <= RX_BURST_MAX then ready else RX_BURST_MAX, k requires 0 <= k => Buf(next + k, port))
  }

  /** Thread `t` goes on to `x` and changes nothing else. */
  function Turn(s: State, t: nat, x: Thread): State
    requires t < |s.threads|
  {
    s.(threads := s.threads[t := x])
  }

  function Receives(s: State, t: nat, i: nat, burst: Burst): State
    requires t < |s.threads|
  {
    s.(threads := s.threads[t := RxPush(i, burst)], received := s.received + [burst])
  }

  function Queues(s: State, t: nat, i: nat, burst: Burst): State
    requires t < |s.threads|
  {
    s.(threads := s.threads[t := RxRecv(i + 1)], queue := s.queue + [burst], accepted := s.accepted + [burst])
  }

  function Drops(s: State, t: nat, i: nat, burst: Burst): State
    requires t < |s.threads|
  {
    s.(threads := s.threads[t := RxRecv(i + 1)], dropped := s.dropped + [burst])
  }

  function Pops(s: State, t: nat): State
    requires t < |s.threads| && s.queue != []
  {
    s.(threads := s.threads[t := PpWork(s.queue[0])], queue := s.queue[1..], popped := s.popped + [s.queue[0]])
  }

  function Works(s: State, t: nat, rest: Burst): State
    requires t < |s.threads| && rest != []
  {
    s.(threads := s.threads[t := PpWork(rest[1..])], processed := s.processed + [rest[0]])
  }

  function Step(c: Config, s: State, m: Move): State {
    if m.thread >= |s.threads| then s else
    match s.threads[m.thread]
    case RxTop => Turn(s, m.thread, if m.stop then RxDone else RxCheck)
    case RxCheck => Turn(s, m.thread, if |s.queue| == c.capacity then RxTop else RxRecv(0))
    case RxRecv(i) =>
      if i >= |c.ports| then Turn(s, m.thread, RxCheck)
      else Receives(s, m.thread, i, Receive(c.ports[i], |Flatten(s.received)|, m.ready))
    case RxPush(i, burst) =>
      if |s.queue| == c.capacity then Drops(s, m.thread, i, burst) else Queues(s, m.thread, i, burst)
    case RxDone => s
    case PpCheck => Turn(s, m.thread, if s.queue == [] then PpDone else PpPop)
    case PpPop =>
      if s.queue == [] then Turn(s, m.thread, PpCheck).(noneTaken := true) else Pops(s, m.thread)
    case PpWork(rest) =>
      if rest == [] then Turn(s, m.thread, PpCheck) else Works(s, m.thread, rest)
    case PpDone => s
  }

  /** The threads as `work_horse` starts them: `true` for `rx_main`, `false` for
      `process_packets`. */
  function Start(roles: seq<bool>): State {
    State(seq(|roles|, t requires 0 <= t < |roles| => if roles[t] then RxTop else PpCheck),
          [], [], [], [], [], [], false)
  }

  function Run(c: Config, roles: seq<bool>, trace: seq<Move>): State {
    if trace == [] then Start(roles)
    else Step(c, Run(c, roles, trace[..|trace| - 1]), trace[|trace| - 1])
  }

  // ----- Conservation -----

  /** How often `b` occurs in `bufs`. */
  ghost function Count(bufs: seq<Buf>, b: Buf): nat {
    if bufs == [] then 0
    else Count(bufs[..|bufs| - 1], b) + if bufs[|bufs| - 1] == b then 1 else 0
  }

  lemma {:induction false} CountConcat(x: seq<Buf>, y: seq<Buf>, b: Buf)
    ensures Count(x + y, b) == Count(x, b) + Count(y, b)
    decreases |y|
  {
    if y == [] {
      assert x + y == x;
    } else {
      assert (x + y)[..|x + y| - 1] == x + y[..|y| - 1];
      CountConcat(x, y[..|y| - 1], b);
    }
  }

  ghost function CountIn(bursts: seq<Burst>, b: Buf): nat {
    if bursts == [] then 0 else CountIn(bursts[..|bursts| - 1], b) + Count(bursts[|bursts| - 1], b)
  }

  lemma CountInAppend(bursts: seq<Burst>, burst: Burst, b: Buf)
    ensures CountIn(bursts + [burst], b) == CountIn(bursts, b) + Count(burst, b)
  {
    assert (bursts + [burst])[..|bursts|] == bursts;
  }

  lemma {:induction false} CountInHead(bursts: seq<Burst>, b: Buf)
    requires bursts != []
    ensures CountIn(bursts, b) == Count(bursts[0], b) + CountIn(bursts[1..], b)
    decreases |bursts|
  {
    var n := |bursts| - 1;
    if n > 0 {
      CountInHead(bursts[..n], b);
      assert bursts[..n][1..] == bursts[1..][..n - 1];
    }
  }

  lemma {:induction false} CountFlatten(bursts: seq<Burst>, b: Buf)
    ensures Count(Flatten(bursts), b) == CountIn(bursts, b)
  {
    if bursts != [] {
      CountFlatten(bursts[..|bursts| - 1], b);
      CountConcat(Flatten(bursts[..|bursts| - 1]), bursts[|bursts| - 1], b);
    }
  }

  ghost function InHands(threads: seq<Thread>, b: Buf): nat {
    if threads == [] then 0
    else InHands(threads[..|threads| - 1], b) + Count(threads[|threads| - 1].Hand(), b)
  }

  /** How often `b` occurs in all places a buffer can be in. */
  ghost function Owned(s: State, b: Buf): nat {
    InHands(s.threads, b) + CountIn(s.queue, b) + Count(s.processed, b) + CountIn(s.dropped, b)
  }

  /** Only thread `t` changes hands. */
  lemma {:induction false} HandsUpdate(threads: seq<Thread>, t: nat, x: Thread, b: Buf)
    requires t < |threads|
    ensures InHands(threads[t := x], b) == InHands(threads, b) - Count(threads[t].Hand(), b) + Count(x.Hand(), b)
    decreases |threads|
  {
    var n, after := |threads| - 1, threads[t := x];
    if t == n {
      assert after[..n] == threads[..n];
    } else {
      HandsUpdate(threads[..n], t, x, b);
      assert after[..n] == threads[..n][t := x] && after[n] == threads[n];
    }
  }

  lemma FlattenAppend(bursts: seq<Burst>, b: Burst)
    ensures Flatten(bursts + [b]) == Flatten(bursts) + b
  {
    assert (bursts + [b])[..|bursts|] == bursts;
  }

  lemma {:induction false} FlattenConcat(a: seq<Burst>, b: seq<Burst>)
    ensures Flatten(a + b) == Flatten(a) + Flatten(b)
    decreases |b|
  {
    if b == [] {
      assert a + b == a;
    } else {
      var n := |b| - 1;
      FlattenConcat(a, b[..n]);
      assert (a + b)[..|a + b| - 1] == a + b[..n];
    }
  }

  ghost predicate Conserved(s: State, b: Buf) {
    Owned(s, b) == CountIn(s.received, b)
  }

  lemma TurnConserves(s: State, t: nat, x: Thread, b: Buf)
    requires Conserved(s, b) && t < |s.threads| && s.threads[t].Hand() == x.Hand()
    ensures Conserved(Turn(s, t, x), b)
  {
    HandsUpdate(s.threads, t, x, b);
  }

  lemma ReceivesConserves(s: State, t: nat, i: nat, burst: Burst, b: Buf)
    requires Conserved(s, b) && t < |s.threads| && s.threads[t].Hand() == []
    ensures Conserved(Receives(s, t, i, burst), b)
  {
    HandsUpdate(s.threads, t, RxPush(i, burst), b);
    CountInAppend(s.received, burst, b);
  }

  lemma QueuesConserves(s: State, t: nat, i: nat, burst: Burst, b: Buf)
    requires Conserved(s, b) && t < |s.threads| && s.threads[t].Hand() == burst
    ensures Conserved(Queues(s, t, i, burst), b)
  {
    HandsUpdate(s.threads, t, RxRecv(i + 1), b);
    CountInAppend(s.queue, burst, b);
  }

  lemma DropsConserves(s: State, t: nat, i: nat, burst: Burst, b: Buf)
    requires Conserved(s, b) && t < |s.threads| && s.threads[t].Hand() == burst
    ensures Conserved(Drops(s, t, i, burst), b)
  {
    HandsUpdate(s.threads, t, RxRecv(i + 1), b);
    CountInAppend(s.dropped, burst, b);
  }

  lemma PopsConserves(s: State, t: nat, b: Buf)
    requires Conserved(s, b) && t < |s.threads| && s.threads[t].Hand() == [] && s.queue != []
    ensures Conserved(Pops(s, t), b)
  {
    HandsUpdate(s.threads, t, PpWork(s.queue[0]), b);
    CountInHead(s.queue, b);
  }

  lemma WorksConserves(s: State, t: nat, rest: Burst, b: Buf)
    requires Conserved(s, b) && t < |s.threads| && s.threads[t].Hand() == rest && rest != []
    ensures Conserved(Works(s, t, rest), b)
  {
    HandsUpdate(s.threads, t, PpWork(rest[1..]), b);
    CountMoves(s.processed, rest, b);
  }

  lemma CountMoves(done: seq<Buf>, rest: seq<Buf>, b: Buf)
    requires rest != []
    ensures Count(done + [rest[0]], b) + Count(rest[1..], b) == Count(done, b) + Count(rest, b)
  {
    assert rest == [rest[0]] + rest[1..];
    CountConcat([rest[0]], rest[1..], b);
    CountConcat(done, [rest[0]], b);
  }

  lemma StepConserves(c: Config, s: State, m: Move, b: Buf)
    requires Conserved(s, b)
    ensures Conserved(Step(c, s, m), b)
  {
    var t := m.thread;
    if t < |s.threads| {
      match s.threads[t]
      case RxTop => TurnConserves(s, t, if m.stop then RxDone else RxCheck, b);
      case RxCheck => TurnConserves(s, t, if |s.queue| == c.capacity then RxTop else RxRecv(0), b);
      case RxRecv(i) =>
        if i >= |c.ports| {
          TurnConserves(s, t, RxCheck, b);
        } else {
          ReceivesConserves(s, t, i, Receive(c.ports[i], |Flatten(s.received)|, m.ready), b);
        }
      case RxPush(i, burst) =>
        QueuesConserves(s, t, i, burst, b);
        DropsConserves(s, t, i, burst, b);
      case RxDone =>
      case PpCheck => TurnConserves(s, t, if s.queue == [] then PpDone else PpPop, b);
      case PpPop =>
        if s.queue == [] {
          TurnConserves(s, t, PpCheck, b);
        } else {
          PopsConserves(s, t, b);
        }
      case PpWork(rest) =>
        if rest == [] {
          TurnConserves(s, t, PpCheck, b);
        } else {
          WorksConserves(s, t, rest, b);
        }
      case PpDone =>
    }
  }

  /** Buffers are numbered in the order of receipt. */
  ghost predicate Numbered(bufs: seq<Buf>) {
    forall k :: 0 <= k < |bufs| ==> bufs[k].id == k
  }

  /** A step receives at most one burst, numbered on from those before. */
  lemma StepReceives(c: Config, s: State, m: Move) returns (port: nat)
    ensures var s' := Step(c, s, m);
            || s'.received == s.received
            || s'.received == s.received + [Receive(port, |Flatten(s.received)|, m.ready)]
  {
    port := 0;
    if m.thread < |s.threads| && s.threads[m.thread].RxRecv? && s.threads[m.thread].i < |c.ports| {
      port := c.ports[s.threads[m.thread].i];
    }
  }

  lemma NumberedMore(bufs: seq<Buf>, port: nat, ready: nat)
    requires Numbered(bufs)
    ensures Numbered(bufs + Receive(port, |bufs|, ready))
  {
  }

  lemma StepNumbers(c: Config, s: State, m: Move)
    requires Numbered(Flatten(s.received))
    ensures Numbered(Flatten(Step(c, s, m).received))
  {
    var port := StepReceives(c, s, m);
    var bufs := Flatten(s.received);
    NumberedMore(bufs, port, m.ready);
    FlattenAppend(s.received, Receive(port, |bufs|, m.ready));
  }

  lemma {:induction false} ReceivedAreNumbered(c: Config, roles: seq<bool>, trace: seq<Move>)
    ensures Numbered(Flatten(Run(c, roles, trace).received))
    decreases |trace|
  {
    if trace != [] {
      ReceivedAreNumbered(c, roles, trace[..|trace| - 1]);
      StepNumbers(c, Run(c, roles, trace[..|trace| - 1]), trace[|trace| - 1]);
    }
  }

  lemma {:induction false} Conservation(c: Config, roles: seq<bool>, trace: seq<Move>, b: Buf)
    ensures Conserved(Run(c, roles, trace), b)
    decreases |trace|
  {
    if trace == [] {
      NoHands(roles, b);
    } else {
      Conservation(c, roles, trace[..|trace| - 1], b);
      StepConserves(c, Run(c, roles, trace[..|trace| - 1]), trace[|trace| - 1], b);
    }
  }

  lemma {:induction false} NoHands(roles: seq<bool>, b: Buf)
    ensures InHands(Start(roles).threads, b) == 0
  {
    if roles != [] {
      var n := |roles| - 1;
      NoHands(roles[..n], b);
      assert Start(roles).threads[..n] == Start(roles[..n]).threads;
    }
  }

  /** In every run every received buffer is in exactly one place, once: in the hand of a
      thread, queued, processed or dropped. */
  lemma {:induction false} ExactlyOnePlace(c: Config, roles: seq<bool>, trace: seq<Move>, b: Buf)
    ensures var s := Run(c, roles, trace);
            InHands(s.threads, b) + CountIn(s.queue, b) + Count(s.processed, b) + CountIn(s.dropped, b)
            == if b in Flatten(s.received) then 1 else 0
  {
    Conservation(c, roles, trace, b);
    ReceivedAreNumbered(c, roles, trace);
    NumberedOnce(Flatten(Run(c, roles, trace).received), b);
    CountFlatten(Run(c, roles, trace).received, b);
  }

  lemma {:induction false} NumberedOnce(bufs: seq<Buf>, b: Buf)
    requires Numbered(bufs)
    ensures Count(bufs, b) == if b in bufs then 1 else 0
  {
    if bufs != [] {
      var n := |bufs| - 1;
      NumberedOnce(bufs[..n], b);
      assert bufs == bufs[..n] + [bufs[n]];
    }
  }

  // ----- The queue -----

  ghost predicate Fifo(c: Config, s: State) {
    |s.queue| <= c.capacity && s.popped + s.queue == s.accepted
  }

  lemma StepFifo(c: Config, s: State, m: Move)
    requires Fifo(c, s)
    ensures Fifo(c, Step(c, s, m))
  {
    if m.thread < |s.threads| {
      match s.threads[m.thread]
      case RxPush(_, burst) =>
        assert s.popped + (s.queue + [burst]) == s.accepted + [burst];
      case PpPop =>
        assert s.queue != [] ==> s.popped + [s.queue[0]] + s.queue[1..] == s.popped + s.queue;
      case _ =>
    }
  }

  /** The queue never exceeds its capacity and hands bursts out in the order it took
      them, however many threads push and pop. */
  lemma {:induction false} BoundedFifo(c: Config, roles: seq<bool>, trace: seq<Move>)
    ensures Fifo(c, Run(c, roles, trace))
    decreases |trace|
  {
    if trace != [] {
      BoundedFifo(c, roles, trace[..|trace| - 1]);
      StepFifo(c, Run(c, roles, trace[..|trace| - 1]), trace[|trace| - 1]);
    }
  }

  // ----- Drops -----

  lemma StepDrops(c: Config, s: State, m: Move)
    ensures var s' := Step(c, s, m);
            || s'.dropped == s.dropped
            || (&& |s.queue| == c.capacity
                && m.thread < |s.threads| && s'.dropped == s.dropped + [s.threads[m.thread].Hand()])
  {
  }

  /** Every drop, so also the last, was the push of what a thread held to a full queue. */
  lemma {:induction false} DropFoundFull(c: Config, roles: seq<bool>, trace: seq<Move>, d: nat) returns (k: nat)
    requires d < |Run(c, roles, trace).dropped|
    ensures k < |trace|
    ensures var s, t := Run(c, roles, trace[..k]), trace[k].thread;
            && |s.queue| == c.capacity && |s.dropped| == d
            && t < |s.threads| && s.threads[t].Hand() == Run(c, roles, trace).dropped[d]
    decreases |trace|
  {
    var n := |trace| - 1;
    var s := Run(c, roles, trace[..n]);
    StepDrops(c, s, trace[n]);
    if d < |s.dropped| {
      k := DropFoundFull(c, roles, trace[..n], d);
      assert trace[..n][..k] == trace[..k];
    } else {
      k := n;
    }
  }

  /** How many threads are about to push. */
  ghost function Pushing(threads: seq<Thread>): nat {
    if threads == [] then 0
    else Pushing(threads[..|threads| - 1]) + if threads[|threads| - 1].RxPush? then 1 else 0
  }

  lemma {:induction false} PushingUpdate(threads: seq<Thread>, t: nat, x: Thread)
    requires t < |threads|
    ensures Pushing(threads[t := x])
         == Pushing(threads) - (if threads[t].RxPush? then 1 else 0) + if x.RxPush? then 1 else 0
    decreases |threads|
  {
    var n, after := |threads| - 1, threads[t := x];
    if t == n {
      assert after[..n] == threads[..n];
    } else {
      PushingUpdate(threads[..n], t, x);
      assert after[..n] == threads[..n][t := x] && after[n] == threads[n];
    }
  }

  ghost predicate Counted(s: State) {
    |s.received| == |s.accepted| + |s.dropped| + Pushing(s.threads)
  }

  lemma StepCounts(c: Config, s: State, m: Move)
    requires Counted(s)
    ensures Counted(Step(c, s, m))
  {
    if m.thread < |s.threads| {
      var s' := Step(c, s, m);
      PushingUpdate(s.threads, m.thread, s'.threads[m.thread]);
      assert s'.threads == s.threads[m.thread := s'.threads[m.thread]];
    }
  }

  lemma {:induction false} NonePushing(roles: seq<bool>)
    ensures Pushing(Start(roles).threads) == 0
  {
    if roles != [] {
      var n := |roles| - 1;
      NonePushing(roles[..n]);
      assert Start(roles).threads[..n] == Start(roles[..n]).threads;
    }
  }

  /** Every received burst, empty ones included, is taken, dropped or about to be pushed,
      and those dropped are in excess of the capacity: a run that receives no more bursts
      than the queue has places drops none. */
  lemma {:induction false} DropsAreExcess(c: Config, roles: seq<bool>, trace: seq<Move>)
    ensures var s := Run(c, roles, trace);
            && |s.received| == |s.accepted| + |s.dropped| + Pushing(s.threads)
            && (s.dropped != [] ==> c.capacity + |s.dropped| <= |s.received|)
            && (|s.received| <= c.capacity ==> s.dropped == [])
    decreases |trace|
  {
    EnoughAccepted(c, roles, trace);
    if trace == [] {
      NonePushing(roles);
    } else {
      DropsAreExcess(c, roles, trace[..|trace| - 1]);
      StepCounts(c, Run(c, roles, trace[..|trace| - 1]), trace[|trace| - 1]);
    }
  }

  lemma {:induction false} EnoughAccepted(c: Config, roles: seq<bool>, trace: seq<Move>)
    ensures var s := Run(c, roles, trace); s.dropped != [] ==> c.capacity <= |s.accepted|
    decreases |trace|
  {
    if trace != [] {
      var before := trace[..|trace| - 1];
      EnoughAccepted(c, roles, before);
      BoundedFifo(c, roles, before);
      StepDrops(c, Run(c, roles, before), trace[|trace| - 1]);
    }
  }

  /** The threads keep the roles they were started with. */
  ghost predicate InRole(threads: seq<Thread>, roles: seq<bool>) {
    |threads| == |roles| && forall t :: 0 <= t < |roles| ==> threads[t].Producer() == roles[t]
  }

  /** A step changes the moving thread and no other. */
  lemma StepOther(c: Config, s: State, m: Move, t: nat)
    requires t < |s.threads| && m.thread != t
    ensures var s' := Step(c, s, m); |s'.threads| == |s.threads| && s'.threads[t] == s.threads[t]
  {
  }

  lemma StepRoles(c: Config, s: State, m: Move, roles: seq<bool>)
    requires InRole(s.threads, roles)
    ensures InRole(Step(c, s, m).threads, roles)
  {
    var s' := Step(c, s, m);
    assert m.thread < |s.threads| ==> s'.threads[m.thread].Producer() == s.threads[m.thread].Producer();
    assert forall t :: 0 <= t < |s.threads| && t != m.thread ==> s'.threads[t] == s.threads[t];
  }

  lemma {:induction false} RolesStay(c: Config, roles: seq<bool>, trace: seq<Move>)
    ensures InRole(Run(c, roles, trace).threads, roles)
    decreases |trace|
  {
    if trace != [] {
      RolesStay(c, roles, trace[..|trace| - 1]);
      StepRoles(c, Run(c, roles, trace[..|trace| - 1]), trace[|trace| - 1], roles);
    }
  }

  // ----- The branch that "should not have run" -----

  /** Two threads process packets while a third can receive some. */
  ghost predicate Contended(c: Config, roles: seq<bool>, p: nat, a: nat, b: nat) {
    && c.ports != []
    && p < |roles| && roles[p]
    && a < |roles| && !roles[a]
    && b < |roles| && !roles[b] && a != b
  }

  ghost predicate CanBeContended(c: Config, roles: seq<bool>) {
    exists p: nat, a: nat, b: nat :: Contended(c, roles, p, a, b)
  }

  ghost predicate NoneReachable(c: Config, roles: seq<bool>) {
    exists trace :: Run(c, roles, trace).noneTaken
  }

  /** A thread finds the queue empty right after having found it non-empty, in some run,
      exactly when there are two threads to process packets, one to receive them and a
      port to receive them from. */
  lemma NoneBranchIff(c: Config, roles: seq<bool>)
    requires c.Valid()
    ensures NoneReachable(c, roles) <==> CanBeContended(c, roles)
  {
    if p: nat, a: nat, b: nat :| Contended(c, roles, p, a, b) {
      NoneBranchRuns(c, roles, p, a, b);
    } else {
      forall trace
        ensures !Run(c, roles, trace).noneTaken
      {
        NoneBranchIdle(c, roles, trace);
      }
    }
  }

  /** Where nobody can be in the way, a thread about to pop is the only one. */
  lemma NoOtherPops(c: Config, roles: seq<bool>, s: State, a: nat)
    requires InRole(s.threads, roles) && a < |roles| && s.threads[a].PpPop?
    requires c.ports != [] && exists p :: 0 <= p < |roles| && roles[p]
    ensures CanBeContended(c, roles) || forall t :: 0 <= t < |roles| && t != a ==> !s.threads[t].PpPop?
  {
    if t :| 0 <= t < |roles| && t != a && s.threads[t].PpPop? {
      var p :| 0 <= p < |roles| && roles[p];
      assert Contended(c, roles, p, a, t);
    }
  }

  lemma {:induction false} NoneBranchIdle(c: Config, roles: seq<bool>, trace: seq<Move>)
    requires c.Valid() && !CanBeContended(c, roles)
    ensures var s := Run(c, roles, trace);
            && !s.noneTaken
            && forall t :: 0 <= t < |s.threads| && s.threads[t].PpPop? ==> s.queue != []
    decreases |trace|
  {
    if trace != [] {
      var before := trace[..|trace| - 1];
      var s, m := Run(c, roles, before), trace[|trace| - 1];
      NoneBranchIdle(c, roles, before);
      RolesStay(c, roles, before);
      NothingQueued(c, roles, before);
      if m.thread < |s.threads| && s.threads[m.thread].PpPop? {
        NoOtherPops(c, roles, s, m.thread);
      }
    }
  }

  /** Nothing is ever queued without a thread that receives and a port to receive from. */
  lemma {:induction false} NothingQueued(c: Config, roles: seq<bool>, trace: seq<Move>)
    ensures var s := Run(c, roles, trace);
            && ((exists t :: 0 <= t < |s.threads| && s.threads[t].RxPush?) || s.queue != [] ==>
                  c.ports != [] && exists p :: 0 <= p < |roles| && roles[p])
    decreases |trace|
  {
    if trace != [] {
      NothingQueued(c, roles, trace[..|trace| - 1]);
      RolesStay(c, roles, trace[..|trace| - 1]);
      RolesStay(c, roles, trace);
    }
  }

  function Go(t: nat): Move {
    Move(t, false, 0)
  }

  lemma RunMore(c: Config, roles: seq<bool>, trace: seq<Move>, m: Move)
    ensures Run(c, roles, trace + [m]) == Step(c, Run(c, roles, trace), m)
  {
    assert (trace + [m])[..|trace|] == trace;
  }

  /** Four moves of a receiver put one burst into the queue. */
  lemma OneBurst(c: Config, roles: seq<bool>, p: nat) returns (trace: seq<Move>)
    requires c.Valid() && c.ports != [] && p < |roles| && roles[p]
    ensures var s := Run(c, roles, trace);
            && |s.queue| == 1 && |s.threads| == |roles|
            && forall t :: 0 <= t < |roles| && !roles[t] ==> s.threads[t] == PpCheck
  {
    trace := [];
    RunMore(c, roles, trace, Go(p));
    trace := trace + [Go(p)];
    RunMore(c, roles, trace, Go(p));
    trace := trace + [Go(p)];
    RunMore(c, roles, trace, Go(p));
    trace := trace + [Go(p)];
    RunMore(c, roles, trace, Go(p));
    trace := trace + [Go(p)];
  }

  /** One burst, two threads that both see it, and only one that gets it. */
  lemma NoneBranchRuns(c: Config, roles: seq<bool>, p: nat, a: nat, b: nat)
    requires c.Valid() && Contended(c, roles, p, a, b)
    ensures NoneReachable(c, roles)
  {
    var t4 := OneBurst(c, roles, p);
    var t5 := t4 + [Go(a)];
    var t6 := t5 + [Go(b)];
    var t7 := t6 + [Go(a)];
    var t8 := t7 + [Go(b)];
    RunMore(c, roles, t4, Go(a));
    RunMore(c, roles, t5, Go(b));
    RunMore(c, roles, t6, Go(a));
    RunMore(c, roles, t7, Go(b));
    assert Run(c, roles, t8).noneTaken;
  }

  // ----- When it came to this -----

  /** What a run may have come to, for good. */
  datatype Event =
    | Stopped(t: nat)   // receiver `t` has returned
    | Emptied(t: nat)   // `process_packets` of thread `t` has returned
    | NoneTaken         // some thread went through the branch that should not have run
  {
    ghost predicate HasHappened(s: State) {
      match this
      case Stopped(t) => t < |s.threads| && s.threads[t] == RxDone
      case Emptied(t) => t < |s.threads| && s.threads[t] == PpDone
      case NoneTaken => s.noneTaken
    }

    /** Move `m` brings it about. */
    ghost predicate Happens(s: State, m: Move) {
      && m.thread < |s.threads|
      && match this
         case Stopped(t) => m.thread == t && s.threads[t] == RxTop && m.stop
         case Emptied(t) => m.thread == t && s.threads[t] == PpCheck && s.queue == []
         case NoneTaken => s.threads[m.thread] == PpPop && s.queue == []
    }

    ghost predicate HappensAt(c: Config, roles: seq<bool>, trace: seq<Move>, j: nat) {
      j < |trace| && Happens(Run(c, roles, trace[..j]), trace[j])
    }
  }

  lemma StepHappens(c: Config, s: State, m: Move, e: Event)
    ensures e.HasHappened(Step(c, s, m)) <==> e.HasHappened(s) || e.Happens(s, m)
  {
  }

  /** A thread that has not moved yet is about to ask, or to check the queue. */
  lemma {:induction false} WaitsToStart(c: Config, roles: seq<bool>, trace: seq<Move>, t: nat)
    requires t < |roles| && forall j :: 0 <= j < |trace| ==> trace[j].thread != t
    ensures var s := Run(c, roles, trace);
            |s.threads| == |roles| && s.threads[t] == if roles[t] then RxTop else PpCheck
    decreases |trace|
  {
    if trace != [] {
      var n := |trace| - 1;
      WaitsToStart(c, roles, trace[..n], t);
      StepOther(c, Run(c, roles, trace[..n]), trace[n], t);
    }
  }

  /** A receiver returns exactly when it is told to stop while it asks, which it does at
      the start and after finding the queue full. A thread that processes packets returns
      exactly when it checks an empty queue. */
  lemma {:induction false} HappenedIff(c: Config, roles: seq<bool>, trace: seq<Move>, e: Event)
    ensures e.HasHappened(Run(c, roles, trace)) <==> exists j :: e.HappensAt(c, roles, trace, j)
    decreases |trace|
  {
    if trace != [] {
      var n := |trace| - 1;
      HappenedIff(c, roles, trace[..n], e);
      StepHappens(c, Run(c, roles, trace[..n]), trace[n], e);
      forall j: nat | j < n
        ensures e.HappensAt(c, roles, trace, j) <==> e.HappensAt(c, roles, trace[..n], j)
      {
        assert trace[..n][..j] == trace[..j];
      }
      assert e.HappensAt(c, roles, trace, n) <==> e.Happens(Run(c, roles, trace[..n]), trace[n]);
    }
  }

  // ----- Order -----

  /** The elements of `b` marked in `keep`, in order. */
  ghost function Select<T>(b: seq<T>, keep: seq<bool>): seq<T>
    requires |keep| == |b|
  {
    if b == [] then []
    else var n := |b| - 1; Select(b[..n], keep[..n]) + if keep[n] then [b[n]] else []
  }

  /** `a` is what is left of `b` after leaving elements out. */
  ghost predicate Subsequence<T>(a: seq<T>, b: seq<T>) {
    exists keep: seq<bool> :: |keep| == |b| && Select(b, keep) == a
  }

  lemma {:induction false} SelectConcat<T>(b: seq<T>, k: seq<bool>, c: seq<T>, l: seq<bool>)
    requires |k| == |b| && |l| == |c|
    ensures Select(b + c, k + l) == Select(b, k) + Select(c, l)
    decreases |c|
  {
    if c == [] {
      assert b + c == b && k + l == k;
    } else {
      var n := |c| - 1;
      assert (b + c)[..|b| + n] == b + c[..n] && (k + l)[..|b| + n] == k + l[..n];
      SelectConcat(b, k, c[..n], l[..n]);
    }
  }

  lemma {:induction false} SelectAlways<T>(c: seq<T>, always: bool) returns (k: seq<bool>)
    ensures |k| == |c| && Select(c, k) == if always then c else []
  {
    k := [];
    if c != [] {
      var n := |c| - 1;
      var rest := SelectAlways(c[..n], always);
      k := rest + [always];
      assert k[..n] == rest && c == c[..n] + [c[n]];
    }
  }

  lemma SubsequenceGrows<T>(a: seq<T>, b: seq<T>, c: seq<T>)
    requires Subsequence(a, b)
    ensures Subsequence(a, b + c) && Subsequence(a + c, b + c)
  {
    var k :| |k| == |b| && Select(b, k) == a;
    var all := SelectAlways(c, true);
    var none := SelectAlways(c, false);
    SelectConcat(b, k, c, all);
    SelectConcat(b, k, c, none);
    assert Select(b + c, k + none) == a + [] == a;
  }

  lemma {:induction false} PrefixSubsequence<T>(a: seq<T>, rest: seq<T>, b: seq<T>)
    requires Subsequence(a + rest, b)
    ensures Subsequence(a, b)
    decreases |b|
  {
    if rest == [] {
      assert a + rest == a;
    } else {
      var k :| |k| == |b| && Select(b, k) == a + rest;
      var n := |b| - 1;
      var less := if k[n] then rest[..|rest| - 1] else rest;
      assert (a + rest)[..|a + rest| - 1] == a + rest[..|rest| - 1];
      assert Select(b[..n], k[..n]) == a + less;
      PrefixSubsequence(a, less, b[..n]);
      SubsequenceGrows(a, b[..n], [b[n]]);
      assert b[..n] + [b[n]] == b;
    }
  }

  /** Thread `p` is the only one in its role. */
  ghost predicate Sole(roles: seq<bool>, p: nat) {
    p < |roles| && forall t :: 0 <= t < |roles| && t != p ==> roles[t] != roles[p]
  }

  /** What thread `p` holds follows what the queue took, in the order of receipt. */
  ghost predicate Accepting(s: State, p: nat) {
    && p < |s.threads|
    && Subsequence(Flatten(s.accepted) + s.threads[p].Hand(), Flatten(s.received))
  }

  lemma ReceivesAccepts(s: State, p: nat, i: nat, burst: Burst)
    requires Accepting(s, p) && s.threads[p].Hand() == []
    ensures Accepting(Receives(s, p, i, burst), p)
  {
    FlattenAppend(s.received, burst);
    assert Flatten(s.accepted) + [] == Flatten(s.accepted);
    SubsequenceGrows(Flatten(s.accepted), Flatten(s.received), burst);
  }

  lemma QueuesAccepts(s: State, p: nat, i: nat, burst: Burst)
    requires Accepting(s, p) && s.threads[p].Hand() == burst
    ensures Accepting(Queues(s, p, i, burst), p)
  {
    FlattenAppend(s.accepted, burst);
    assert Flatten(s.accepted) + burst + [] == Flatten(s.accepted) + burst;
  }

  lemma DropsAccepts(s: State, p: nat, i: nat, burst: Burst)
    requires Accepting(s, p) && s.threads[p].Hand() == burst
    ensures Accepting(Drops(s, p, i, burst), p)
  {
    PrefixSubsequence(Flatten(s.accepted), burst, Flatten(s.received));
    assert Flatten(s.accepted) + [] == Flatten(s.accepted);
  }

  /** Only a receive or a push of `p` changes what `p` holds or the queue took. */
  lemma OthersLeave(c: Config, s: State, m: Move, p: nat)
    requires p < |s.threads| && s.threads[p].Producer()
    requires m.thread < |s.threads| ==> (s.threads[m.thread].Producer() <==> m.thread == p)
    requires m.thread == p ==> !s.threads[p].RxPush? && (s.threads[p].RxRecv? ==> s.threads[p].i >= |c.ports|)
    ensures var s' := Step(c, s, m);
            && p < |s'.threads| && s'.threads[p].Hand() == s.threads[p].Hand()
            && s'.accepted == s.accepted && s'.received == s.received
  {
  }

  lemma StepAccepts(c: Config, s: State, m: Move, p: nat)
    requires Accepting(s, p) && s.threads[p].Producer()
    requires m.thread < |s.threads| ==> (s.threads[m.thread].Producer() <==> m.thread == p)
    ensures Accepting(Step(c, s, m), p)
  {
    if m.thread == p && s.threads[p].RxRecv? && s.threads[p].i < |c.ports| {
      var i := s.threads[p].i;
      ReceivesAccepts(s, p, i, Receive(c.ports[i], |Flatten(s.received)|, m.ready));
    } else if m.thread == p && s.threads[p].RxPush? {
      if |s.queue| == c.capacity {
        DropsAccepts(s, p, s.threads[p].i, s.threads[p].burst);
      } else {
        QueuesAccepts(s, p, s.threads[p].i, s.threads[p].burst);
      }
    } else {
      OthersLeave(c, s, m, p);
    }
  }

  /** With one receiver, the queue takes bursts in the order of receipt. */
  lemma {:induction false} AcceptedInOrder(c: Config, roles: seq<bool>, trace: seq<Move>, p: nat)
    requires Sole(roles, p) && roles[p]
    ensures Accepting(Run(c, roles, trace), p)
    decreases |trace|
  {
    if trace != [] {
      AcceptedInOrder(c, roles, trace[..|trace| - 1], p);
      RolesStay(c, roles, trace[..|trace| - 1]);
      StepAccepts(c, Run(c, roles, trace[..|trace| - 1]), trace[|trace| - 1], p);
    }
  }

  /** Thread `k` goes through what left the queue. */
  ghost predicate Processing(s: State, k: nat) {
    && k < |s.threads|
    && s.processed + s.threads[k].Hand() == Flatten(s.popped)
  }

  lemma PopsProcesses(s: State, k: nat)
    requires Processing(s, k) && s.threads[k].Hand() == [] && s.queue != []
    ensures Processing(Pops(s, k), k)
  {
    FlattenAppend(s.popped, s.queue[0]);
  }

  lemma WorksProcesses(s: State, k: nat, rest: Burst)
    requires Processing(s, k) && s.threads[k].Hand() == rest != []
    ensures Processing(Works(s, k, rest), k)
  {
    assert s.processed + rest == s.processed + [rest[0]] + rest[1..];
  }

  /** Only a pop or the work of `k` changes what `k` holds, what was popped or processed. */
  lemma OthersWait(c: Config, s: State, m: Move, k: nat)
    requires k < |s.threads|
    requires m.thread < |s.threads| ==> (!s.threads[m.thread].Producer() <==> m.thread == k)
    requires m.thread == k ==>
               && !(s.threads[k].PpPop? && s.queue != [])
               && !(s.threads[k].PpWork? && s.threads[k].rest != [])
    ensures var s' := Step(c, s, m);
            && k < |s'.threads| && s'.threads[k].Hand() == s.threads[k].Hand()
            && s'.popped == s.popped && s'.processed == s.processed
  {
  }

  lemma StepProcesses(c: Config, s: State, m: Move, k: nat)
    requires Processing(s, k)
    requires m.thread < |s.threads| ==> (!s.threads[m.thread].Producer() <==> m.thread == k)
    ensures Processing(Step(c, s, m), k)
  {
    if m.thread == k && s.threads[k].PpPop? && s.queue != [] {
      PopsProcesses(s, k);
    } else if m.thread == k && s.threads[k].PpWork? && s.threads[k].rest != [] {
      WorksProcesses(s, k, s.threads[k].rest);
    } else {
      OthersWait(c, s, m, k);
    }
  }

  /** With one thread processing, packets are processed in the order their bursts left
      the queue. */
  lemma {:induction false} ProcessedInOrder(c: Config, roles: seq<bool>, trace: seq<Move>, k: nat)
    requires Sole(roles, k) && !roles[k]
    ensures Processing(Run(c, roles, trace), k)
    decreases |trace|
  {
    if trace != [] {
      ProcessedInOrder(c, roles, trace[..|trace| - 1], k);
      RolesStay(c, roles, trace[..|trace| - 1]);
      StepProcesses(c, Run(c, roles, trace[..|trace| - 1]), trace[|trace| - 1], k);
    }
  }

  ghost function OfPort(bufs: seq<Buf>, port: nat): seq<Buf> {
    if bufs == [] then []
    else OfPort(bufs[..|bufs| - 1], port) + if bufs[|bufs| - 1].port == port then [bufs[|bufs| - 1]] else []
  }

  lemma {:induction false} SubsequenceOfPort(a: seq<Buf>, b: seq<Buf>, port: nat)
    requires Subsequence(a, b)
    ensures Subsequence(OfPort(a, port), OfPort(b, port))
    decreases |b|
  {
    var k :| |k| == |b| && Select(b, k) == a;
    if b == [] {
      assert Select<Buf>([], []) == OfPort(a, port);
    } else {
      var n := |b| - 1;
      var less := Select(b[..n], k[..n]);
      SubsequenceOfPort(less, b[..n], port);
      var last := if b[n].port == port then [b[n]] else [];
      SubsequenceGrows(OfPort(less, port), OfPort(b[..n], port), last);
      if k[n] {
        assert a[..|a| - 1] == less && OfPort(a, port) == OfPort(less, port) + last;
      } else {
        assert a == less;
      }
    }
  }

  /** The numbers ascend, and each buffer is the one of `bufs` with its number. */
  ghost predicate Ascending(chosen: seq<Buf>, bufs: seq<Buf>) {
    && (forall i :: 0 <= i < |chosen| ==> chosen[i].id < |bufs| && bufs[chosen[i].id] == chosen[i])
    && (forall i, j :: 0 <= i < j < |chosen| ==> chosen[i].id < chosen[j].id)
  }

  lemma {:induction false} SelectedAscend(bufs: seq<Buf>, keep: seq<bool>)
    requires Numbered(bufs) && |keep| == |bufs|
    ensures Ascending(Select(bufs, keep), bufs)
    decreases |bufs|
  {
    if bufs != [] {
      var n := |bufs| - 1;
      var less := Select(bufs[..n], keep[..n]);
      SelectedAscend(bufs[..n], keep[..n]);
      assert forall i :: 0 <= i < |less| ==> bufs[less[i].id] == less[i];
    }
  }

  lemma SubsequenceAscends(a: seq<Buf>, b: seq<Buf>)
    requires Subsequence(a, b) && Numbered(b)
    ensures Ascending(a, b)
  {
    var keep :| |keep| == |b| && Select(b, keep) == a;
    SelectedAscend(b, keep);
  }

  /** With one receiver and one thread processing, the packets processed, all of them or
      those of one port, are an in-order selection of those received: their numbers
      ascend. */
  lemma {:induction false} OrderIsKept(c: Config, roles: seq<bool>, trace: seq<Move>, p: nat, k: nat, port: nat)
    requires Sole(roles, p) && roles[p] && Sole(roles, k) && !roles[k]
    ensures var s := Run(c, roles, trace);
            && Subsequence(s.processed, Flatten(s.received))
            && Subsequence(OfPort(s.processed, port), OfPort(Flatten(s.received), port))
            && Ascending(s.processed, Flatten(s.received))
  {
    var s := Run(c, roles, trace);
    AcceptedInOrder(c, roles, trace, p);
    ProcessedInOrder(c, roles, trace, k);
    BoundedFifo(c, roles, trace);
    PrefixSubsequence(Flatten(s.accepted), s.threads[p].Hand(), Flatten(s.received));
    FlattenConcat(s.popped, s.queue);
    PrefixSubsequence(Flatten(s.popped), Flatten(s.queue), Flatten(s.received));
    PrefixSubsequence(s.processed, s.threads[k].Hand(), Flatten(s.received));
    SubsequenceOfPort(s.processed, Flatten(s.received), port);
    ReceivedAreNumbered(c, roles, trace);
    SubsequenceAscends(s.processed, Flatten(s.received));
  }
}
