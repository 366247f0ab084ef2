/** Handing raw buffers to the driver and giving them back to their memory pool. */
module Transmit {
  import opened Machine

  /** A raw `rte_mbuf` pointer: which buffer, and the pool it was allocated from. */
  datatype RawMbuf = RawMbuf(id: nat, pool: nat)

  /** One call of `rte_mempool_put_bulk`. */
  datatype Put = Put(pool: nat, bufs: seq<RawMbuf>)

  // ----- Returning buffers in bulk -----

  ghost function Returned(puts: seq<Put>): seq<RawMbuf> {
    if puts == [] then [] else puts[0].bufs + Returned(puts[1..])
  }

  /** Every buffer of the call comes from the pool the call returns it to. */
  ghost predicate Home(put: Put) {
    forall b :: b in put.bufs ==> b.pool == put.pool
  }

  lemma {:induction false} ReturnedAppend(puts: seq<Put>, put: Put)
    ensures Returned(puts + [put]) == Returned(puts) + put.bufs
  {
    if puts == [] {
      assert Returned(puts + [put]) == put.bufs + Returned([]);
    } else {
      assert (puts + [put])[0] == puts[0] && (puts + [put])[1..] == puts[1..] + [put];
      ReturnedAppend(puts[1..], put);
    }
  }

  lemma {:induction false} InReturned(puts: seq<Put>, b: RawMbuf)
    ensures b in Returned(puts) <==> exists i :: 0 <= i < |puts| && b in puts[i].bufs
  {
    if puts != [] {
      InReturned(puts[1..], b);
      if i :| 0 <= i < |puts| && b in puts[i].bufs {
        assert b in puts[0].bufs || b in puts[1..][i - 1].bufs;
      }
      if i :| 0 <= i < |puts[1..]| && b in puts[1..][i].bufs {
        assert b in puts[i + 1].bufs;
      }
    }
  }

  /** Every batch is returned to `pool`; one after the first starts with a buffer foreign
      to that pool, and all other buffers are from it. */
  ghost predicate Batch(pool: nat, n: nat, put: Put) {
    && put.pool == pool
    && put.bufs != []
    && (0 < n ==> put.bufs[0].pool != pool)
    && forall j :: 0 < j < |put.bufs| ==> put.bufs[j].pool == pool
  }

  /** The buffers `done` are in the calls made so far and then in `toFree`. */
  ghost predicate Batched(pool: nat, puts: seq<Put>, toFree: seq<RawMbuf>, done: seq<RawMbuf>) {
    && Returned(puts) + toFree == done
    && (toFree == [] ==> puts == [])
    && (forall i :: 0 <= i < |puts| ==> Batch(pool, i, puts[i]))
    && (toFree != [] ==> Batch(pool, |puts|, Put(pool, toFree)))
  }

  lemma BatchHome(pool: nat, puts: seq<Put>, toFree: seq<RawMbuf>, done: seq<RawMbuf>, mbuf: RawMbuf)
    requires Batched(pool, puts, toFree, done) && mbuf.pool == pool
    ensures Batched(pool, puts, toFree + [mbuf], done + [mbuf])
  {
    assert Returned(puts) + (toFree + [mbuf]) == done + [mbuf];
  }

  lemma BatchForeign(pool: nat, puts: seq<Put>, toFree: seq<RawMbuf>, done: seq<RawMbuf>, mbuf: RawMbuf)
    requires Batched(pool, puts, toFree, done) && toFree != [] && mbuf.pool != pool
    ensures Batched(pool, puts + [Put(pool, toFree)], [mbuf], done + [mbuf])
  {
    ReturnedAppend(puts, Put(pool, toFree));
  }

  /** The calls return the buffers in order, each once, all to the pool of the first one,
      and start a new batch exactly at the foreign buffers. */
  ghost predicate Batches(mbufs: seq<RawMbuf>, puts: seq<Put>)
    requires mbufs != []
  {
    && Returned(puts) == mbufs
    && (forall i :: 0 <= i < |puts| ==> Batch(mbufs[0].pool, i, puts[i]))
  }

  /** Returns the buffers in batches. `pool` is the pool of the first buffer and is
      never updated. */
  method MbufFreeBulk(mbufs: seq<RawMbuf>) returns (puts: seq<Put>)
    requires mbufs != []
    ensures Batches(mbufs, puts)
    ensures forall i :: 0 <= i < |puts| ==> puts[i].pool == mbufs[0].pool && puts[i].bufs != []
  {
    var toFree: seq<RawMbuf> := [];
    var pool := mbufs[0].pool;
    puts := [];
    for n := 0 to |mbufs|
      invariant Batched(pool, puts, toFree, mbufs[..n])
      invariant toFree == [] ==> n == 0
    {
      var mbuf := mbufs[n];
      assert mbufs[..n + 1] == mbufs[..n] + [mbuf];
      if pool == mbuf.pool {
        BatchHome(pool, puts, toFree, mbufs[..n], mbuf);
        toFree := toFree + [mbuf];
      } else {
        BatchForeign(pool, puts, toFree, mbufs[..n], mbuf);
        puts := puts + [Put(pool, toFree)];
        toFree := [];
        toFree := toFree + [mbuf];
      }
    }
    assert mbufs[..|mbufs|] == mbufs;
    ReturnedAppend(puts, Put(pool, toFree));
    puts := puts + [Put(pool, toFree)];
    toFree := [];
  }

  /** Every buffer goes back to the pool it came from exactly when the list holds
      buffers of a single pool. */
  lemma {:induction false} HomeIffOnePool(mbufs: seq<RawMbuf>, puts: seq<Put>)
    requires mbufs != [] && Batches(mbufs, puts)
    ensures (forall i :: 0 <= i < |puts| ==> Home(puts[i]))
       <==> (forall b :: b in mbufs ==> b.pool == mbufs[0].pool)
  {
    forall b: RawMbuf
      ensures b in mbufs <==> exists i :: 0 <= i < |puts| && b in puts[i].bufs
    {
      InReturned(puts, b);
    }
  }

  // ----- Transmitting -----

  const U16_LIMIT: nat := 0x1_0000

  /** The cast of a length to u16. */
  function AsU16(n: nat): (r: nat)
    ensures r <= n && r < U16_LIMIT && (n < U16_LIMIT ==> r == n) && r == n % 0x1_0000
  {
    n % U16_LIMIT
  }

  /** Where the buffers of one call of `transmit` end up, in order. A leaked buffer is
      neither with the driver nor back in a pool. */
  datatype Fate = Fate(sent: seq<RawMbuf>, puts: seq<Put>, leaked: seq<RawMbuf>, calls: nat, panicked: bool)

  /** What the driver takes of `offered` buffers in a given call. `driver` is arbitrary,
      so every answer between 0 and `offered` is possible in every call. */
  function Burst(driver: nat -> nat, call: nat, offered: nat): (sent: nat)
    ensures driver(call) <= offered ==> sent == driver(call)
    ensures driver(call) > offered ==> sent == offered
  {
    if driver(call) <= offered then driver(call) else offered
  }

  /** How the send loop ends: what the driver took, what was left in the list, whether
      it was a refusal that ended it, and after how many calls. */
  datatype Drive = Drive(sent: seq<RawMbuf>, left: seq<RawMbuf>, refused: bool, calls: nat)

  ghost function Run(driver: nat -> nat, call: nat, ptrs: seq<RawMbuf>): Drive
    decreases |ptrs|
  {
    var toSend := AsU16(|ptrs|);
    var sent := Burst(driver, call, toSend);
    if sent == 0 then Drive([], ptrs, true, 1)
    else if sent == toSend then Drive(ptrs[..sent], ptrs[sent..], false, 1)
    else
      var rest := Run(driver, call + 1, ptrs[sent..]);
      Drive(ptrs[..sent] + rest.sent, rest.left, rest.refused, 1 + rest.calls)
  }

  /** What `transmit` makes of the end of the loop: after a refusal the rest is freed,
      which panics when there is none; otherwise the rest is dropped as raw pointers. */
  ghost predicate Settles(fate: Fate, run: Drive) {
    && fate.sent == run.sent
    && fate.calls == run.calls
    && Returned(fate.puts) == (if run.refused then run.left else [])
    && fate.leaked == (if run.refused then [] else run.left)
    && (fate.panicked <==> run.refused && run.left == [])
    && (!run.refused ==> fate.puts == [])
    && (run.refused && run.left != [] ==> Batches(run.left, fate.puts))
  }

  /** The run is what was sent in the calls made so far, and then the run of the rest. */
  ghost predicate Continues(whole: Drive, sentAll: seq<RawMbuf>, calls: nat, rest: Drive) {
    && whole.sent == sentAll + rest.sent
    && whole.left == rest.left
    && whole.refused == rest.refused
    && whole.calls == calls + rest.calls
  }

  lemma CallContinues(driver: nat -> nat, whole: Drive, sentAll: seq<RawMbuf>, calls: nat, ptrs: seq<RawMbuf>)
    requires Continues(whole, sentAll, calls, Run(driver, calls, ptrs))
    requires 0 < Burst(driver, calls, AsU16(|ptrs|)) < AsU16(|ptrs|)
    ensures var sent := Burst(driver, calls, AsU16(|ptrs|));
            Continues(whole, sentAll + ptrs[..sent], calls + 1, Run(driver, calls + 1, ptrs[sent..]))
  {
    var sent := Burst(driver, calls, AsU16(|ptrs|));
    var rest := Run(driver, calls + 1, ptrs[sent..]);
    assert Run(driver, calls, ptrs) == Drive(ptrs[..sent] + rest.sent, rest.left, rest.refused, 1 + rest.calls);
    assert sentAll + (ptrs[..sent] + rest.sent) == sentAll + ptrs[..sent] + rest.sent;
  }

  /** The last call: all that was offered was taken, or nothing. */
  lemma CallEnds(driver: nat -> nat, whole: Drive, sentAll: seq<RawMbuf>, calls: nat, ptrs: seq<RawMbuf>)
    requires Continues(whole, sentAll, calls, Run(driver, calls, ptrs))
    requires Burst(driver, calls, AsU16(|ptrs|)) in {0, AsU16(|ptrs|)}
    ensures var sent := Burst(driver, calls, AsU16(|ptrs|));
            whole == Drive(sentAll + ptrs[..sent], ptrs[sent..], sent == 0, calls + 1)
  {
    var sent := Burst(driver, calls, AsU16(|ptrs|));
    assert Run(driver, calls, ptrs) == Drive(ptrs[..sent], ptrs[sent..], sent == 0, 1);
  }

  /** The loop of `PortQueue::transmit`, over a list of any length. */
  method Transmit(packets: seq<RawMbuf>, driver: nat -> nat) returns (fate: Fate)
    ensures Settles(fate, Run(driver, 0, packets))
  {
    ghost var whole := Run(driver, 0, packets);
    var ptrs, sentAll, calls := packets, [], 0;
    while true
      invariant Continues(whole, sentAll, calls, Run(driver, calls, ptrs))
      decreases |ptrs|
    {
      var toSend := AsU16(|ptrs|);
      var sent := Burst(driver, calls, toSend);
      if sent > 0 {
        if toSend - sent > 0 {
          CallContinues(driver, whole, sentAll, calls, ptrs);
          sentAll, calls := sentAll + ptrs[..sent], calls + 1;
          ptrs := ptrs[sent..];
        } else {
          CallEnds(driver, whole, sentAll, calls, ptrs);
          return Fate(sentAll + ptrs[..sent], [], ptrs[sent..], calls + 1, false);
        }
      } else {
        CallEnds(driver, whole, sentAll, calls, ptrs);
        if ptrs == [] {
          return Fate(sentAll, [], [], calls + 1, true);
        }
        var puts := MbufFreeBulk(ptrs);
        return Fate(sentAll, puts, [], calls + 1, false);
      }
    }
  }

  /** No buffer is lost or repeated, in order, whatever the driver answers. */
  lemma {:induction false} RunConserves(driver: nat -> nat, call: nat, ptrs: seq<RawMbuf>)
    ensures Run(driver, call, ptrs).sent + Run(driver, call, ptrs).left == ptrs
    decreases |ptrs|
  {
    var toSend := AsU16(|ptrs|);
    var sent := Burst(driver, call, toSend);
    if 0 < sent < toSend {
      RunConserves(driver, call + 1, ptrs[sent..]);
      var rest := Run(driver, call + 1, ptrs[sent..]);
      assert ptrs[..sent] + rest.sent + rest.left == ptrs[..sent] + (rest.sent + rest.left);
    }
  }

  /** The loop ends within as many calls as the u16 cast offers buffers, and it ends
      without a refusal exactly when the driver took all of those. */
  lemma {:induction false} RunCounts(driver: nat -> nat, call: nat, ptrs: seq<RawMbuf>)
    ensures var run := Run(driver, call, ptrs);
            && 1 <= run.calls <= (if AsU16(|ptrs|) == 0 then 1 else AsU16(|ptrs|))
            && |run.sent| <= AsU16(|ptrs|)
            && (!run.refused <==> 0 < |run.sent| == AsU16(|ptrs|))
    decreases |ptrs|
  {
    var sent := Burst(driver, call, AsU16(|ptrs|));
    if 0 < sent < AsU16(|ptrs|) {
      OfferShrinks(|ptrs|, sent);
      RunCounts(driver, call + 1, ptrs[sent..]);
    }
  }

  lemma OfferShrinks(n: nat, sent: nat)
    requires sent <= AsU16(n)
    ensures AsU16(n - sent) == AsU16(n) - sent
  {
  }

  /** An exchange with the driver that starts with `seen` buffers on offer. The calls take
      `amounts`, one after the other: each as much of what is left as the driver wants, and
      there is another call exactly when that was some but not all. */
  ghost predicate Exchange(driver: nat -> nat, call: nat, seen: nat, amounts: seq<nat>)
    decreases |amounts|
  {
    && amounts != []
    && (driver(call) <= seen ==> amounts[0] == driver(call))
    && (driver(call) > seen ==> amounts[0] == seen)
    && (|amounts| > 1 <==> 0 < amounts[0] < seen)
    && (|amounts| > 1 ==> Exchange(driver, call + 1, seen - amounts[0], amounts[1..]))
  }

  ghost function Sum(amounts: seq<nat>): nat {
    if amounts == [] then 0 else amounts[0] + Sum(amounts[1..])
  }

  /** The loop is such an exchange over what a u16 shows of the list: it ends with what
      went in its calls, and with a refusal exactly when the last one took nothing. */
  lemma {:induction false} RunExchanges(driver: nat -> nat, call: nat, ptrs: seq<RawMbuf>) returns (amounts: seq<nat>)
    ensures Exchange(driver, call, AsU16(|ptrs|), amounts)
    ensures var run := Run(driver, call, ptrs);
            && |amounts| == run.calls
            && Sum(amounts) == |run.sent|
            && (run.refused <==> amounts[|amounts| - 1] == 0)
    decreases |ptrs|
  {
    var seen := AsU16(|ptrs|);
    var sent := Burst(driver, call, seen);
    if 0 < sent < seen {
      OfferShrinks(|ptrs|, sent);
      var rest := RunExchanges(driver, call + 1, ptrs[sent..]);
      amounts := [sent] + rest;
      assert amounts[1..] == rest;
    } else {
      amounts := [sent];
    }
  }

  /** Where `transmit` leaves the buffers, for every driver: with the driver, returned
      or leaked, each once and in the order of the input. Buffers leak exactly when the
      driver took all that a u16 shows of a longer list; only the empty list panics. */
  lemma {:induction false} TransmitConserves(driver: nat -> nat, packets: seq<RawMbuf>, fate: Fate)
    requires Settles(fate, Run(driver, 0, packets))
    ensures fate.sent + Returned(fate.puts) + fate.leaked == packets
    ensures fate.calls <= 1 || fate.calls <= |packets|
    ensures fate.panicked <==> packets == []
    ensures fate.leaked != [] <==> 0 < |fate.sent| == |packets| % 0x1_0000 < |packets|
    ensures fate.leaked != [] ==> fate.puts == []
  {
    var run := Run(driver, 0, packets);
    RunConserves(driver, 0, packets);
    RunCounts(driver, 0, packets);
    assert |run.sent| + |run.left| == |packets|;
    if run.refused {
      assert fate.sent + Returned(fate.puts) + [] == run.sent + run.left;
    } else {
      assert fate.sent + [] + fate.leaked == run.sent + run.left;
    }
  }

  ghost predicate Leaks(driver: nat -> nat, packets: seq<RawMbuf>) {
    exists fate :: Settles(fate, Run(driver, 0, packets)) && fate.leaked != []
  }

  /** Some driver makes a list leak exactly when the list is longer than a u16 can say
      and its length is not a multiple of 65536. */
  lemma {:induction false} LeakIff(packets: seq<RawMbuf>)
    ensures (exists driver: nat -> nat :: Leaks(driver, packets))
       <==> |packets| >= 0x1_0000 && |packets| % 0x1_0000 != 0
  {
    if |packets| >= 0x1_0000 && |packets| % 0x1_0000 != 0 {
      var greedy: nat -> nat := _ => U16_LIMIT;
      var run := Run(greedy, 0, packets);
      var fate := Fate(run.sent, [], run.left, run.calls, false);
      assert Settles(fate, run) && fate.leaked != [];
      assert Leaks(greedy, packets);
    }
    forall driver: nat -> nat | Leaks(driver, packets)
      ensures |packets| >= 0x1_0000 && |packets| % 0x1_0000 != 0
    {
      var fate :| Settles(fate, Run(driver, 0, packets)) && fate.leaked != [];
      TransmitConserves(driver, packets, fate);
    }
  }
}
