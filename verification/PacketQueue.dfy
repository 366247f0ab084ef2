/** The bounded queue between `rx_main` and `process_packets`, and the two loops on it. */
module PacketQueue {
  import opened Machine
  import opened Net
  import opened Arith
  import R = RoutingTable

  datatype FiveTuple =
    FiveTuple(srcMac: MacAddr, dstMac: MacAddr, srcIp: Ipv4Addr, dstIp: Ipv4Addr, proto: u8)

  /** A received buffer with the header fields read from it. */
  datatype Packet = Packet(id: nat, tuple: FiveTuple)

  /** One burst of packets and the port it came from. */
  datatype PortIdMbuf = PortIdMbuf(portid: u16, buf: seq<Packet>)

  const RX_BURST_MAX: nat := 32

  /** A bounded first-in first-out queue. */
  class ArrayQueue<T> {
    const capacity: nat
    var items: seq<T>

    ghost predicate Valid()
      reads this
    {
      0 < capacity && |items| <= capacity
    }

    constructor (capacity: nat)
      requires 0 < capacity
      ensures Valid() && this.capacity == capacity && items == []
    {
      this.capacity, items := capacity, [];
    }

    method Push(x: T) returns (r: Result<(), T>)
      requires Valid()
      modifies this
      ensures Valid()
      ensures old(|items|) < capacity ==> r == Ok(()) && items == old(items) + [x]
      ensures old(|items|) == capacity ==> r == Err(x) && items == old(items)
    {
      if |items| == capacity {
        return Err(x);
      }
      items := items + [x];
      return Ok(());
    }

    method Pop() returns (r: Option<T>)
      requires Valid()
      modifies this
      ensures Valid()
      ensures old(items) == [] ==> r == None && items == []
      ensures old(items) != [] ==> r == Some(old(items)[0]) && items == old(items)[1..]
    {
      if items == [] {
        return None;
      }
      r := Some(items[0]);
      items := items[1..];
    }

    method IsFull() returns (full: bool)
      ensures full <==> |items| == capacity
    {
      full := |items| == capacity;
    }

    method IsEmpty() returns (empty: bool)
      ensures empty <==> items == []
    {
      empty := items == [];
    }
  }

  // ----- Filling -----

  /** The network cards: what each call of `receive` returns is theirs to choose, up to
      32 packets. */
  class Nic {
    const arrivals: nat -> seq<Packet>
    var calls: nat

    constructor (arrivals: nat -> seq<Packet>)
      ensures this.arrivals == arrivals && calls == 0
    {
      this.arrivals, calls := arrivals, 0;
    }

    method Receive() returns (recvd: seq<Packet>)
      modifies this
      ensures recvd == BurstOf(arrivals(old(calls))) && calls == old(calls) + 1
    {
      recvd := BurstOf(arrivals(calls));
      calls := calls + 1;
    }
  }

  function BurstOf(waiting: seq<Packet>): (b: seq<Packet>)
    ensures |b| == (if |waiting| <= 32 then |waiting| else 32) && b == waiting[..|b|]
  {
    if |waiting| <= RX_BURST_MAX then waiting else waiting[..RX_BURST_MAX]
  }

  /** The first `n` bursts that polling the ports in turn receives. */
  ghost function Polled(ports: seq<u16>, arrivals: nat -> seq<Packet>, first: nat, n: nat): (s: seq<PortIdMbuf>)
    requires ports != []
    ensures |s| == n
  {
    seq(n, j requires 0 <= j < n => PortIdMbuf(ports[j % |ports|], BurstOf(arrivals(first + j))))
  }

  /** Burst `i` of pass `pass` is what port `i` received, each from a call of its own. */
  lemma {:induction false} PolledAt(ports: seq<u16>, arrivals: nat -> seq<Packet>, first: nat, n: nat,
                                    pass: nat, i: nat, k: nat)
    requires i < |ports| && k == pass * |ports| + i < n
    ensures Polled(ports, arrivals, first, n)[k].portid == ports[i]
    ensures var waiting := arrivals(first + k);
            Polled(ports, arrivals, first, n)[k].buf == if |waiting| <= 32 then waiting else waiting[..32]
  {
    DivModUnique(|ports|, pass, i);
    assert Polled(ports, arrivals, first, n)[k] == PortIdMbuf(ports[k % |ports|], BurstOf(arrivals(first + k)));
  }

  lemma {:induction false} PolledNext(ports: seq<u16>, arrivals: nat -> seq<Packet>, first: nat, n: nat,
                                      pass: nat, i: nat)
    requires i < |ports| && n == pass * |ports| + i
    ensures Polled(ports, arrivals, first, n + 1)
         == Polled(ports, arrivals, first, n) + [PortIdMbuf(ports[i], BurstOf(arrivals(first + n)))]
  {
    DivModUnique(|ports|, pass, i);
  }

  /** After `n` bursts into a queue with `free` places: the first of them are queued in
      order and the rest dropped in order. */
  ghost predicate Split<T>(items: seq<T>, was: seq<T>, dropped: seq<T>, polled: seq<T>, free: nat)
  {
    if |polled| <= free then items == was + polled && dropped == []
    else items == was + polled[..free] && dropped == polled[free..]
  }

  lemma SplitNext<T>(items: seq<T>, was: seq<T>, dropped: seq<T>, polled: seq<T>, free: nat, x: T)
    requires Split(items, was, dropped, polled, free)
    ensures |items| == |was| + if |polled| <= free then |polled| else free
    ensures |items| < |was| + free ==> Split(items + [x], was, dropped, polled + [x], free)
    ensures |items| == |was| + free ==> Split(items, was, dropped + [x], polled + [x], free)
  {
    if |polled| < free {
      assert items + [x] == was + (polled + [x]);
    } else {
      assert polled[..free] == (polled + [x])[..free] && (polled + [x])[free..] == polled[free..] + [x];
    }
  }

  /** What the end of the fill loop means: the queue has gained exactly its free places,
      fewer bursts than there are ports were dropped, all of them polled in the last of
      ceil(free / ports) passes. */
  lemma {:induction false} FillCounts(items: seq<PortIdMbuf>, was: seq<PortIdMbuf>, dropped: seq<PortIdMbuf>,
                   polled: seq<PortIdMbuf>, free: nat, ports: nat, passes: nat)
    requires Split(items, was, dropped, polled, free)
    requires 1 <= ports && |polled| == passes * ports && (passes - 1) * ports < free <= passes * ports
    ensures |items| == |was| + free && items[..|was|] == was && items[|was|..] + dropped == polled
    ensures |dropped| == passes * ports - free < ports
    ensures passes == (free + ports - 1) / ports
    ensures forall i :: 0 <= i < |dropped| ==> dropped[i] == polled[free + i] && (passes - 1) * ports <= free + i
  {
    assert (passes - 1) * ports == passes * ports - ports;
    DivModUnique(ports, passes, free + ports - 1 - passes * ports);
  }

  /** The queue and the drops after `n` bursts. */
  ghost predicate Filled(items: seq<PortIdMbuf>, was: seq<PortIdMbuf>, dropped: seq<PortIdMbuf>, free: nat,
                         ports: seq<u16>, arrivals: nat -> seq<Packet>, first: nat, n: nat)
  {
    ports != [] && Split(items, was, dropped, Polled(ports, arrivals, first, n), free)
  }

  /** One more burst, from port `i`, is queued if there is a place and dropped if not. */
  lemma {:induction false} FilledNext(items: seq<PortIdMbuf>, was: seq<PortIdMbuf>, dropped: seq<PortIdMbuf>, free: nat,
                                      ports: seq<u16>, arrivals: nat -> seq<Packet>, first: nat, n: nat,
                                      pass: nat, base: nat, i: nat)
    requires Filled(items, was, dropped, free, ports, arrivals, first, n)
    requires i < |ports| && n == base + i && base == pass * |ports|
    ensures var burst := PortIdMbuf(ports[i], BurstOf(arrivals(first + n)));
            && |items| == |was| + (if n <= free then n else free)
            && (|items| < |was| + free ==>
                  Filled(items + [burst], was, dropped, free, ports, arrivals, first, n + 1))
            && (|items| == |was| + free ==>
                  Filled(items, was, dropped + [burst], free, ports, arrivals, first, n + 1))
  {
    PolledNext(ports, arrivals, first, n, pass, i);
    SplitNext(items, was, dropped, Polled(ports, arrivals, first, n), free,
              PortIdMbuf(ports[i], BurstOf(arrivals(first + n))));
  }

  /** The inner loop of `rx_main`: one pass over the ports. */
  method PollPorts(ports: seq<u16>, nic: Nic, mbufs: ArrayQueue<PortIdMbuf>, droppedBefore: seq<PortIdMbuf>,
                   ghost was: seq<PortIdMbuf>, ghost free: nat, ghost first: nat, ghost pass: nat, ghost base: nat)
    returns (dropped: seq<PortIdMbuf>)
    requires mbufs.Valid() && |was| + free == mbufs.capacity
    requires base == pass * |ports| && nic.calls == first + base
    requires Filled(mbufs.items, was, droppedBefore, free, ports, nic.arrivals, first, base)
    modifies nic, mbufs
    ensures mbufs.Valid() && nic.calls == first + base + |ports|
    ensures Filled(mbufs.items, was, dropped, free, ports, nic.arrivals, first, base + |ports|)
  {
    dropped := droppedBefore;
    for i := 0 to |ports|
      invariant mbufs.Valid() && nic.calls == first + base + i
      invariant Filled(mbufs.items, was, dropped, free, ports, nic.arrivals, first, base + i)
    {
      FilledNext(mbufs.items, was, dropped, free, ports, nic.arrivals, first, base + i, pass, base, i);
      var recvd := nic.Receive();
      var pushed := mbufs.Push(PortIdMbuf(ports[i], recvd));
      match pushed {
        case Ok(_) =>
        case Err(burst) => dropped := dropped + [burst];
      }
    }
  }

  lemma FilledCount(items: seq<PortIdMbuf>, was: seq<PortIdMbuf>, dropped: seq<PortIdMbuf>, free: nat,
                    ports: seq<u16>, arrivals: nat -> seq<Packet>, first: nat, n: nat)
    requires Filled(items, was, dropped, free, ports, arrivals, first, n)
    ensures |items| == |was| + if n <= free then n else free
  {
  }

  /** The fill loop of `rx_main`, with no consumer at work. Without ports it would spin
      on any queue that is not full. */
  method FillQueue(ports: seq<u16>, nic: Nic, mbufs: ArrayQueue<PortIdMbuf>)
    returns (dropped: seq<PortIdMbuf>, passes: nat)
    requires mbufs.Valid()
    requires ports != [] || |mbufs.items| == mbufs.capacity
    modifies nic, mbufs
    ensures mbufs.Valid() && |mbufs.items| == mbufs.capacity
    ensures old(|mbufs.items|) == mbufs.capacity ==> passes == 0 && dropped == [] && mbufs.items == old(mbufs.items)
    ensures ports != [] ==>
              var free := mbufs.capacity - old(|mbufs.items|);
              && (passes - 1) * |ports| < free <= passes * |ports|
              && nic.calls == old(nic.calls) + passes * |ports|
              && Split(mbufs.items, old(mbufs.items), dropped,
                       Polled(ports, nic.arrivals, old(nic.calls), passes * |ports|), free)
  {
    dropped, passes := [], 0;
    ghost var free := mbufs.capacity - |mbufs.items|;
    ghost var was, first := mbufs.items, nic.calls;
    ghost var n: nat := 0;
    var full := mbufs.IsFull();
    while !full
      invariant mbufs.Valid() && (full <==> |mbufs.items| == mbufs.capacity)
      invariant n == passes * |ports| && nic.calls == first + n
      invariant free == 0 ==> passes == 0 && dropped == [] && mbufs.items == was
      invariant ports != [] ==> n - |ports| < free
      invariant ports != [] ==> Filled(mbufs.items, was, dropped, free, ports, nic.arrivals, first, n)
      decreases mbufs.capacity - |mbufs.items|
    {
      FilledCount(mbufs.items, was, dropped, free, ports, nic.arrivals, first, n);
      dropped := PollPorts(ports, nic, mbufs, dropped, was, free, first, passes, n);
      passes, n := passes + 1, n + |ports|;
      FilledCount(mbufs.items, was, dropped, free, ports, nic.arrivals, first, n);
      full := mbufs.IsFull();
    }
    assert (passes - 1) * |ports| == n - |ports|;
    if ports != [] {
      FilledCount(mbufs.items, was, dropped, free, ports, nic.arrivals, first, n);
    }
  }

  // ----- Draining -----

  /** A packet and the port it was received on. */
  datatype Tagged = Tagged(port: u16, packet: Packet)

  /** What processing a packet changes: the last five-tuple of each port, the forwarding
      table, and the packets passed on to `tx_to_clients`. */
  datatype Plane = Plane(portmap: map<u16, FiveTuple>, tables: R.Tables, delivered: seq<Packet>)

  ghost function Process(plane: Plane, t: Tagged): Plane {
    Plane(plane.portmap[t.port := t.packet.tuple],
          R.Add(plane.tables, R.Pair(t.packet.tuple.dstMac, t.packet.tuple.dstIp)),
          plane.delivered + [t.packet])
  }

  /** A left fold over the packets, oldest first. */
  ghost function ProcessAll(plane: Plane, packets: seq<Tagged>): Plane {
    if packets == [] then plane
    else Process(ProcessAll(plane, packets[..|packets| - 1]), packets[|packets| - 1])
  }

  ghost function Tag(port: u16, buf: seq<Packet>): (s: seq<Tagged>)
    ensures |s| == |buf|
  {
    seq(|buf|, i requires 0 <= i < |buf| => Tagged(port, buf[i]))
  }

  ghost function Flatten(bursts: seq<PortIdMbuf>): seq<Tagged> {
    if bursts == [] then [] else Tag(bursts[0].portid, bursts[0].buf) + Flatten(bursts[1..])
  }

  lemma {:induction false} ProcessAllConcat(plane: Plane, a: seq<Tagged>, b: seq<Tagged>)
    ensures ProcessAll(plane, a + b) == ProcessAll(ProcessAll(plane, a), b)
    decreases |b|
  {
    if b == [] {
      assert a + b == a;
    } else {
      assert (a + b)[..|a + b| - 1] == a + b[..|b| - 1];
      ProcessAllConcat(plane, a, b[..|b| - 1]);
    }
  }

  /** How many packets the bursts hold. */
  ghost function Total(bursts: seq<PortIdMbuf>): nat {
    if bursts == [] then 0 else |bursts[0].buf| + Total(bursts[1..])
  }

  /** Position by position: packet `j` of burst `i` follows all packets of the bursts
      before, with the port of its burst, and there are no others. */
  lemma {:induction false} FlattenHolds(bursts: seq<PortIdMbuf>, i: nat, j: nat)
    requires i < |bursts| && j < |bursts[i].buf|
    ensures |Flatten(bursts)| == Total(bursts)
    ensures Total(bursts[..i]) + j < Total(bursts)
    ensures Flatten(bursts)[Total(bursts[..i]) + j] == Tagged(bursts[i].portid, bursts[i].buf[j])
  {
    FlattenLength(bursts);
    if i > 0 {
      FlattenHolds(bursts[1..], i - 1, j);
      assert bursts[..i][1..] == bursts[1..][..i - 1];
    }
  }

  lemma {:induction false} FlattenLength(bursts: seq<PortIdMbuf>)
    ensures |Flatten(bursts)| == Total(bursts)
  {
    if bursts != [] {
      FlattenLength(bursts[1..]);
    }
  }

  /** The fold in closed form: the forwarding table has learnt the history of
      (destination MAC, destination IP) pairs, and every packet is passed on once, in
      order. */
  lemma {:induction false} FoldLearns(plane: Plane, packets: seq<Tagged>, pairs: seq<R.Pair>, passed: seq<Packet>)
    requires |pairs| == |passed| == |packets|
    requires forall i :: 0 <= i < |packets| ==> passed[i] == packets[i].packet
    requires forall i :: 0 <= i < |packets| ==>
               pairs[i].mac == packets[i].packet.tuple.dstMac && pairs[i].ip == packets[i].packet.tuple.dstIp
    ensures ProcessAll(plane, packets).tables == R.AddAll(plane.tables, pairs)
    ensures ProcessAll(plane, packets).delivered == plane.delivered + passed
    decreases |packets|
  {
    if packets != [] {
      var n := |packets| - 1;
      FoldLearns(plane, packets[..n], pairs[..n], passed[..n]);
      assert passed == passed[..n] + [passed[n]];
    }
  }

  /** Packet `i` is the last one of its port. */
  ghost predicate LastOfPort(packets: seq<Tagged>, i: nat) {
    i < |packets| && forall j :: i < j < |packets| ==> packets[j].port != packets[i].port
  }

  /** The port map holds the five-tuple of the last packet of a port. */
  lemma {:induction false} PortmapHoldsLast(plane: Plane, packets: seq<Tagged>, i: nat)
    requires LastOfPort(packets, i)
    ensures packets[i].port in ProcessAll(plane, packets).portmap
    ensures ProcessAll(plane, packets).portmap[packets[i].port] == packets[i].packet.tuple
    decreases |packets|
  {
    if i < |packets| - 1 {
      PortmapHoldsLast(plane, packets[..|packets| - 1], i);
    }
  }

  /** The port map is unchanged at a port without packets. */
  lemma {:induction false} PortmapKeepsOthers(plane: Plane, packets: seq<Tagged>, port: u16)
    requires forall i :: 0 <= i < |packets| ==> packets[i].port != port
    ensures port in ProcessAll(plane, packets).portmap <==> port in plane.portmap
    ensures port in plane.portmap ==> ProcessAll(plane, packets).portmap[port] == plane.portmap[port]
    decreases |packets|
  {
    if packets != [] {
      PortmapKeepsOthers(plane, packets[..|packets| - 1], port);
    }
  }

  class DataPlane {
    const table: R.RoutingTable
    var portmap: map<u16, FiveTuple>
    var delivered: seq<Packet>

    constructor (table: R.RoutingTable)
      ensures this.table == table && portmap == map[] && delivered == []
    {
      this.table, portmap, delivered := table, map[], [];
    }

    ghost function View(): Plane
      reads this, table
    {
      Plane(portmap, table.View(), delivered)
    }

    /** Consumes the buffer. The body of `tx_to_clients` is still to be written in the
        engine; this records what it is given. */
    method TxToClients(mbuf: Packet)
      modifies this`delivered
      ensures delivered == old(delivered) + [mbuf]
    {
      delivered := delivered + [mbuf];
    }

    method ProcessBurst(pnum: u16, buf: seq<Packet>)
      modifies this, table
      ensures View() == ProcessAll(old(View()), Tag(pnum, buf))
    {
      ghost var was, all := View(), Tag(pnum, buf);
      for i := 0 to |buf|
        invariant View() == ProcessAll(was, all[..i])
      {
        var mbuf := buf[i];
        portmap := portmap[pnum := mbuf.tuple];
        table.AddPair(mbuf.tuple.dstMac, mbuf.tuple.dstIp);
        TxToClients(mbuf);
        assert all[..i + 1][..i] == all[..i];
      }
      assert all[..|buf|] == all;
    }

    /** The loop of `process_packets`, with no producer at work. */
    method ProcessPackets(mbufs: ArrayQueue<PortIdMbuf>)
      requires mbufs.Valid()
      modifies this, table, mbufs
      ensures mbufs.Valid() && mbufs.items == []
      ensures View() == ProcessAll(old(View()), Flatten(old(mbufs.items)))
    {
      ghost var end := ProcessAll(View(), Flatten(mbufs.items));
      var empty := mbufs.IsEmpty();
      while !empty
        invariant mbufs.Valid() && (empty <==> mbufs.items == [])
        invariant ProcessAll(View(), Flatten(mbufs.items)) == end
        decreases |mbufs.items|
      {
        ProcessAllConcat(View(), Tag(mbufs.items[0].portid, mbufs.items[0].buf), Flatten(mbufs.items[1..]));
        var popped := mbufs.Pop();
        match popped {
          case Some(elem) =>
            var buf := elem.buf;
            if buf != [] {
              ProcessBurst(elem.portid, buf);
            }
          case None =>
            assert false;
        }
        empty := mbufs.IsEmpty();
      }
    }
  }
}
