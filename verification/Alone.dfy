/** One thread of the state machine moving while all others wait: its steps add up to
    what its loop does. */
module Alone {
  import opened Arith
  import opened Interleaving

  /** The state after `n` moves of a script, starting with move `from`. */
  function Steps(c: Config, s: State, script: nat -> Move, from: nat, n: nat): State
    decreases n
  {
    if n == 0 then s else Steps(c, Step(c, s, script(from)), script, from + 1, n - 1)
  }

  lemma {:induction false} StepsConcat(c: Config, s: State, script: nat -> Move, from: nat, m: nat, n: nat)
    ensures Steps(c, s, script, from, m + n) == Steps(c, Steps(c, s, script, from, m), script, from + m, n)
    decreases m
  {
    if m > 0 {
      var s1 := Step(c, s, script(from));
      StepsConcat(c, s1, script, from + 1, m - 1, n);
      assert Steps(c, s, script, from, m + n) == Steps(c, s1, script, from + 1, m - 1 + n);
    }
  }

  ghost predicate By(t: nat, script: nat -> Move) {
    forall j :: script(j).thread == t
  }

  // ----- A receiver alone -----

  ghost predicate FromPort(burst: Burst, port: nat, ready: nat) {
    && |burst| == (if ready <= 32 then ready else 32)
    && forall k :: 0 <= k < |burst| ==> burst[k].port == port
  }

  /** From `s` to `s'` the bursts were received; the queue took the first of them, and
      those lost were the rest, once it was full. */
  ghost predicate Took(c: Config, s: State, s': State, bursts: seq<Burst>, lost: seq<Burst>) {
    && s'.received == s.received + bursts
    && s'.dropped == s.dropped + lost
    && s'.queue + lost == s.queue + bursts
    && |s'.queue| <= c.capacity
    && (lost != [] ==> |s'.queue| == c.capacity)
    && s'.popped == s.popped && s'.processed == s.processed && s'.noneTaken == s.noneTaken
  }

  lemma TookConcat(c: Config, s: State, s1: State, s2: State,
                   b1: seq<Burst>, l1: seq<Burst>, b2: seq<Burst>, l2: seq<Burst>)
    requires Took(c, s, s1, b1, l1) && Took(c, s1, s2, b2, l2)
    ensures Took(c, s, s2, b1 + b2, l1 + l2)
  {
    assert s.received + (b1 + b2) == s.received + b1 + b2;
    assert s.dropped + (l1 + l2) == s.dropped + l1 + l2;
    assert s.queue + (b1 + b2) == s.queue + b1 + b2;
    if l1 == [] {
      assert l1 + l2 == l2 && s1.queue == s.queue + b1;
    } else {
      FullStays(s1.queue, b2, s2.queue, l2);
      assert s2.queue + (l1 + l2) == s1.queue + l1 + b2;
    }
  }

  lemma FullStays(full: seq<Burst>, more: seq<Burst>, after: seq<Burst>, lost: seq<Burst>)
    requires after + lost == full + more && |after| <= |full| && (lost != [] ==> |after| == |full|)
    ensures after == full && lost == more
  {
    assert |after| == |full|;
    assert after == (after + lost)[..|full|] && full == (full + more)[..|full|];
    assert lost == (after + lost)[|full|..] && more == (full + more)[|full|..];
  }

  /** Receiving from one port and pushing. */
  lemma PortAlone(c: Config, s: State, t: nat, script: nat -> Move, from: nat, i: nat)
    returns (burst: Burst, lost: seq<Burst>)
    requires By(t, script) && |s.queue| <= c.capacity
    requires t < |s.threads| && i < |c.ports| && s.threads[t] == RxRecv(i)
    ensures var s' := Steps(c, s, script, from, 2);
            && s'.threads == s.threads[t := RxRecv(i + 1)]
            && Took(c, s, s', [burst], lost)
            && FromPort(burst, c.ports[i], script(from).ready)
  {
    var s1 := Step(c, s, script(from));
    var s2 := Step(c, s1, script(from + 1));
    burst := s1.threads[t].burst;
    lost := if |s.queue| == c.capacity then [burst] else [];
    assert Steps(c, s, script, from, 2) == Steps(c, s1, script, from + 1, 1) == s2;
  }

  /** One burst from every port from `i` on, in order, every other move of the script. */
  ghost predicate FromPorts(bursts: seq<Burst>, ports: seq<nat>, i: nat, script: nat -> Move, from: nat) {
    && |bursts| == |ports| - i
    && forall j :: 0 <= j < |bursts| ==> FromPort(bursts[j], ports[i + j], script(from + 2 * j).ready)
  }

  /** The ports from `i` on, in turn. */
  lemma {:induction false} PortsAlone(c: Config, s: State, t: nat, script: nat -> Move, from: nat, i: nat)
    returns (bursts: seq<Burst>, lost: seq<Burst>)
    requires By(t, script) && |s.queue| <= c.capacity
    requires t < |s.threads| && i <= |c.ports| && s.threads[t] == RxRecv(i)
    ensures var s' := Steps(c, s, script, from, 2 * (|c.ports| - i));
            && s'.threads == s.threads[t := RxRecv(|c.ports|)]
            && Took(c, s, s', bursts, lost)
    ensures FromPorts(bursts, c.ports, i, script, from)
    decreases |c.ports| - i
  {
    bursts, lost := [], [];
    if i < |c.ports| {
      var burst, l := PortAlone(c, s, t, script, from, i);
      var s1 := Steps(c, s, script, from, 2);
      var more, l' := PortsAlone(c, s1, t, script, from + 2, i + 1);
      StepsConcat(c, s, script, from, 2, 2 * (|c.ports| - i - 1));
      TookConcat(c, s, s1, Steps(c, s, script, from, 2 * (|c.ports| - i)), [burst], l, more, l');
      bursts, lost := [burst] + more, l + l';
      forall j | 0 <= j < |bursts|
        ensures FromPort(bursts[j], c.ports[i + j], script(from + 2 * j).ready)
      {
        if j > 0 {
          assert bursts[j] == more[j - 1] && from + 2 + 2 * (j - 1) == from + 2 * j;
        }
      }
    }
  }

  /** One pass over the ports of a queue that was not full: one burst from every port, in
      order, of at most 32 packets. */
  lemma PassAlone(c: Config, s: State, t: nat, script: nat -> Move, from: nat)
    returns (bursts: seq<Burst>, lost: seq<Burst>)
    requires By(t, script) && |s.queue| < c.capacity
    requires t < |s.threads| && s.threads[t] == RxCheck
    ensures var s' := Steps(c, s, script, from, 2 * |c.ports| + 2);
            s'.threads == s.threads && Took(c, s, s', bursts, lost)
    ensures FromPorts(bursts, c.ports, 0, script, from + 1)
  {
    var s1 := Step(c, s, script(from));
    Enters(c, s, script(from));
    bursts, lost := PortsAlone(c, s1, t, script, from + 1, 0);
    var s2 := Steps(c, s1, script, from + 1, 2 * |c.ports|);
    Leaves(c, s2, script(from + 1 + 2 * |c.ports|));
    StepsBetween(c, s, script, from, 2 * |c.ports|);
    PassedOver(c, s, s2, t, bursts, lost);
  }

  lemma PassedOver(c: Config, s: State, s2: State, t: nat, bursts: seq<Burst>, lost: seq<Burst>)
    requires t < |s.threads| && s.threads[t] == RxCheck && s2.threads == s.threads[t := RxRecv(|c.ports|)]
    requires Took(c, Turn(s, t, RxRecv(0)), s2, bursts, lost)
    ensures Turn(s2, t, RxCheck).threads == s.threads && Took(c, s, Turn(s2, t, RxCheck), bursts, lost)
  {
  }

  lemma Enters(c: Config, s: State, m: Move)
    requires m.thread < |s.threads| && s.threads[m.thread] == RxCheck && |s.queue| < c.capacity
    ensures Step(c, s, m) == Turn(s, m.thread, RxRecv(0))
  {
  }

  lemma Leaves(c: Config, s: State, m: Move)
    requires m.thread < |s.threads| && s.threads[m.thread] == RxRecv(|c.ports|)
    ensures Step(c, s, m) == Turn(s, m.thread, RxCheck)
  {
  }

  lemma StepsOne(c: Config, s: State, script: nat -> Move, from: nat)
    ensures Steps(c, s, script, from, 1) == Step(c, s, script(from))
  {
    assert Steps(c, s, script, from, 1) == Steps(c, Step(c, s, script(from)), script, from + 1, 0);
  }

  /** A move, `n` more, and a last one. */
  lemma StepsBetween(c: Config, s: State, script: nat -> Move, from: nat, n: nat)
    ensures Steps(c, s, script, from, n + 2)
         == Step(c, Steps(c, Step(c, s, script(from)), script, from + 1, n), script(from + 1 + n))
  {
    StepsOne(c, s, script, from);
    StepsConcat(c, s, script, from, 1, n);
    StepsConcat(c, s, script, from, 1 + n, 1);
    StepsOne(c, Steps(c, s, script, from, 1 + n), script, from + 1 + n);
  }

  /** Bursts of whole passes over the ports. */
  ghost predicate InTurn(bursts: seq<Burst>, ports: seq<nat>) {
    && ports != []
    && |bursts| % |ports| == 0
    && forall j, k :: 0 <= j < |bursts| && 0 <= k < |bursts[j]| ==> bursts[j][k].port == ports[j % |ports|]
  }

  lemma {:induction false} InTurnNext(pass: seq<Burst>, more: seq<Burst>, ports: seq<nat>)
    requires InTurn(more, ports) && |pass| == |ports|
    requires forall j, k :: 0 <= j < |pass| && 0 <= k < |pass[j]| ==> pass[j][k].port == ports[j]
    ensures InTurn(pass + more, ports)
  {
    var p := |ports|;
    var all: seq<Burst> := pass + more;
    NextRemainder(|more|, p);
    forall j, k | 0 <= j < |all| && 0 <= k < |all[j]|
      ensures all[j][k].port == ports[j % p]
    {
      if j < p {
        SmallModulus(j, p);
      } else {
        NextRemainder(j - p, p);
        assert all[j] == more[j - p];
      }
    }
  }

  lemma LostFew(c: Config, s: State, s': State, bursts: seq<Burst>, lost: seq<Burst>)
    requires Took(c, s, s', bursts, lost) && |s.queue| < c.capacity && bursts != []
    ensures |s.queue| < |s'.queue| <= c.capacity && |lost| < |bursts|
    ensures lost != [] ==> |s'.queue| == c.capacity
  {
    assert |s'.queue + lost| == |s.queue + bursts|;
  }

  /** A receiver alone leaves its polling only with a full queue. It has gone over the
      ports in turn, and lost fewer bursts than there are ports. */
  lemma {:induction false} FillAlone(c: Config, s: State, t: nat, script: nat -> Move, from: nat)
    returns (n: nat, bursts: seq<Burst>, lost: seq<Burst>)
    requires By(t, script) && |s.queue| <= c.capacity && c.ports != []
    requires t < |s.threads| && s.threads[t] == RxCheck
    ensures var s' := Steps(c, s, script, from, n);
            && s'.threads == s.threads[t := RxTop]
            && |s'.queue| == c.capacity
            && Took(c, s, s', bursts, lost)
    ensures InTurn(bursts, c.ports) && |lost| < |c.ports|
    ensures |s.queue| == c.capacity ==> n == 1 && bursts == lost == []
    decreases c.capacity - |s.queue|
  {
    if |s.queue| == c.capacity {
      n, bursts, lost := 1, [], [];
      StepsOne(c, s, script, from);
    } else {
      var pass, l := PassAlone(c, s, t, script, from);
      var p := 2 * |c.ports| + 2;
      var s1 := Steps(c, s, script, from, p);
      LostFew(c, s, s1, pass, l);
      var m, more, l' := FillAlone(c, s1, t, script, from + p);
      StepsConcat(c, s, script, from, p, m);
      n, bursts, lost := p + m, pass + more, l + l';
      TookConcat(c, s, s1, Steps(c, s, script, from, n), pass, l, more, l');
      InTurnNext(pass, more, c.ports);
    }
  }

  /** One round of a receiver alone that is not told to stop: it receives only if the
      queue has a place, ends with a full queue, and asks again. */
  lemma RoundAlone(c: Config, s: State, t: nat, script: nat -> Move, from: nat)
    returns (n: nat, bursts: seq<Burst>, lost: seq<Burst>)
    requires By(t, script) && |s.queue| <= c.capacity && c.ports != []
    requires t < |s.threads| && s.threads[t] == RxTop && !script(from).stop
    ensures var s' := Steps(c, s, script, from, n);
            && s'.threads == s.threads
            && |s'.queue| == c.capacity
            && Took(c, s, s', bursts, lost)
    ensures InTurn(bursts, c.ports) && |lost| < |c.ports|
    ensures |s.queue| == c.capacity ==> n == 2 && bursts == lost == []
  {
    var s1 := Step(c, s, script(from));
    n, bursts, lost := FillAlone(c, s1, t, script, from + 1);
    n := 1 + n;
    assert s1.threads[t := RxTop] == s.threads;
  }

  // ----- A thread that processes packets alone -----

  lemma {:induction false} WorkAlone(c: Config, s: State, t: nat, script: nat -> Move, from: nat)
    requires By(t, script) && t < |s.threads| && s.threads[t].PpWork?
    ensures Steps(c, s, script, from, |s.threads[t].rest| + 1)
         == s.(threads := s.threads[t := PpCheck], processed := s.processed + s.threads[t].rest)
    decreases |s.threads[t].rest|
  {
    var rest, s1 := s.threads[t].rest, Step(c, s, script(from));
    if rest == [] {
      assert Steps(c, s1, script, from + 1, 0) == s1;
      assert s.processed + rest == s.processed;
    } else {
      WorkAlone(c, s1, t, script, from + 1);
      assert s.processed + [rest[0]] + rest[1..] == s.processed + rest;
    }
  }

  /** The state after thread `t` has emptied the queue. */
  ghost function Drained(s: State, t: nat): State
    requires t < |s.threads|
  {
    s.(threads := s.threads[t := PpDone], queue := [], popped := s.popped + s.queue,
       processed := s.processed + Flatten(s.queue))
  }

  /** A thread that processes packets alone takes every burst, in order, processes every
      packet once, in order, and returns with the queue empty. The number of its moves is
      determined. */
  lemma {:induction false} DrainAlone(c: Config, s: State, t: nat, script: nat -> Move, from: nat)
    requires By(t, script) && t < |s.threads| && s.threads[t] == PpCheck
    ensures Steps(c, s, script, from, |Flatten(s.queue)| + 3 * |s.queue| + 1)
         == s.(threads := s.threads[t := PpDone], queue := [], popped := s.popped + s.queue,
               processed := s.processed + Flatten(s.queue))
    decreases |s.queue|
  {
    if s.queue == [] {
      StepsOne(c, s, script, from);
    } else {
      var s1, b, rest := TakeOne(s), |s.queue[0]| + 3, |Flatten(s.queue[1..])| + 3 * |s.queue[1..]| + 1;
      BurstAlone(c, s, t, script, from);
      DrainAlone(c, s1, t, script, from + b);
      StepsConcat(c, s, script, from, b, rest);
      DrainedNext(s, t);
      assert |Flatten(s.queue)| + 3 * |s.queue| + 1 == b + rest;
    }
  }

  ghost function TakeOne(s: State): State
    requires s.queue != []
  {
    s.(queue := s.queue[1..], popped := s.popped + [s.queue[0]], processed := s.processed + s.queue[0])
  }

  lemma DrainedNext(s: State, t: nat)
    requires t < |s.threads| && s.queue != []
    ensures Drained(TakeOne(s), t) == Drained(s, t)
    ensures |Flatten(s.queue)| == |s.queue[0]| + |Flatten(s.queue[1..])|
  {
    FlattenHead(s.queue);
    assert s.popped + [s.queue[0]] + s.queue[1..] == s.popped + s.queue;
    assert s.processed + s.queue[0] + Flatten(s.queue[1..]) == s.processed + Flatten(s.queue);
  }

  lemma BurstAlone(c: Config, s: State, t: nat, script: nat -> Move, from: nat)
    requires By(t, script) && t < |s.threads| && s.threads[t] == PpCheck && s.queue != []
    ensures Steps(c, s, script, from, |s.queue[0]| + 3) == TakeOne(s)
  {
    var s1 := Step(c, s, script(from));
    var s2 := Step(c, s1, script(from + 1));
    WorkAlone(c, s2, t, script, from + 2);
    assert Steps(c, s, script, from, |s.queue[0]| + 3) == Steps(c, s1, script, from + 1, |s.queue[0]| + 2);
    assert s2.threads[t := PpCheck] == s.threads;
  }

  lemma FlattenHead(bursts: seq<Burst>)
    requires bursts != []
    ensures Flatten(bursts) == bursts[0] + Flatten(bursts[1..])
  {
    FlattenConcat([bursts[0]], bursts[1..]);
    assert [bursts[0]] + bursts[1..] == bursts;
    FlattenAppend([], bursts[0]);
    assert [] + [bursts[0]] == [bursts[0]];
  }
}
