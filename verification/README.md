# Verified model of the l2switch engine

The engine forwards packets between network cards and containers. This project models
the parts of it that keep books: message buffers edited in place, packet buffers that
change owner between threads, driver and pools, containers that register and get DPDK
rings, the two forwarding tables, and CIDR and MAC addresses with their text forms. It
proves what these keep over all inputs, all runs and all answers of the outside world.

`dafny verify dfyconfig.toml` checks everything.

## What is modelled

- `Machine`, `Arith`, `Net`: fixed-width integers, facts of division, address types.
- `Mbuf`: one buffer as a class over a byte array, with `ptr::copy` as forward and
  backward loops. Its methods are tied to `Apply`, the effect on the memory from `data_off`
  on; `Apply` is proved to refine `Ideal`, an editor of plain byte lists in which a gap
  holds unknown bytes.
- `Transmit`: `transmit` and `mbuf_free_bulk`. The driver is an arbitrary function from
  the number of the call to how many buffers it takes.
- `PacketQueue`: the bounded queue, the fill loop of `rx_main` and the loop of
  `process_packets`, each with nobody else at work.
- `Interleaving`: any number of both kinds of threads on one queue as a state machine.
  A trace chooses which thread makes the next atomic step, when a thread is told to stop
  and how many packets a card has ready. A buffer carries its number in the order of
  receipt, so that each receipt is a buffer of its own.
- `Alone`: one of these threads moving while the others wait, whose single steps add up
  to what its loop does.
- `RoutingTable`: the two tables and every history of `add`.
- `Lifecycle`: the two client maps and the set of live DPDK rings, over every history of
  messages with arbitrary answers of DPDK and the socket. DPDK refuses a ring name that is
  live; rings of other programs may be live from the start. A ring handle is represented
  by the name it is live under. Every `?` and every drop is written out.
- `Cidr`: bit operations, masks, blocks and the iterator over words of any width `w`; 32
  gives `v4.rs`, 128 gives `v6.rs`. `Text`, `Ipv4Text`, `MacText`: parsing and printing.

Integer operations that leave their range are outcomes of their own (`Overflow`, `None`),
as where overflow checks are on. `usize` has 64 bits.

## Where the code does not meet its description

- `mbuf_free_bulk` never updates `pool`, so it returns every buffer to the pool of the
  first one. All go home exactly when all are from one pool (`Transmit.HomeIffOnePool`).
- `transmit` casts its length to u16. It leaks buffers, for some driver, exactly when it
  gets 65536 or more and not a multiple of 65536 (`Transmit.LeakIff`). It panics on the
  empty list.
- `process_packets` says that its `None` branch should not run. It runs exactly when two
  threads process packets while one can receive (`Interleaving.NoneBranchIff`).
- The two tables of `RoutingTable` are meant to mirror each other. They do so after every
  step exactly when no call brings one new and one known address
  (`RoutingTable.MirroredIffBalanced`).
- A prefix length of 0 builds the all-ones mask, so the text of the default block is the
  one printed form that does not parse back (`Ipv4Text.PrintParsesIff`).
- README.md:21 of the engine lets packet removal wait on an empty queue; the code returns,
  and so does the model.
- `rx_main` breaks on any `Ok` of `try_recv`. When to stop is a free choice of the trace.

## Model

| member | source | states |
|---|---|---|
| Mbuf.Mbuf.Tailroom | sw-engine/engine/src/dpdk/mbuf.rs:191-194 | the bytes behind the data, without underflow |
| Mbuf.CopyWithin | sw-engine/engine/src/dpdk/mbuf.rs:209-213 | an overlapping copy reads every byte before overwriting it and changes nothing else |
| Mbuf.IsMoved | sw-engine/engine/src/dpdk/mbuf.rs:209-213 | byte by byte, what the copy puts where and what it leaves |
| Mbuf.Mbuf.Extend | sw-engine/engine/src/dpdk/mbuf.rs:201-221 | succeeds exactly for a positive length at an offset within the data that is less than the room behind it; exact new memory, bytes before the data untouched |
| Mbuf.Mbuf.Shrink | sw-engine/engine/src/dpdk/mbuf.rs:227-246 | succeeds exactly for a positive length and a range within the data; overflows exactly with the sum; exact new memory, bytes before the data untouched |
| Mbuf.Mbuf.Resize | sw-engine/engine/src/dpdk/mbuf.rs:250-256 | succeeds exactly when the buffer changes; when the negation or the sum overflows |
| Mbuf.Mbuf.Truncate | sw-engine/engine/src/dpdk/mbuf.rs:260-267 | keeps a strictly shorter prefix or fails unchanged |
| Mbuf.Mbuf.ReadDataSlice | sw-engine/engine/src/dpdk/mbuf.rs:271-330 | the bytes of a range within the data; when the offset, the sum or the range is refused, and with which numbers |
| Mbuf.Mbuf.WriteDataSlice | sw-engine/engine/src/dpdk/mbuf.rs:293-358 | overwrites exactly the range; success, each error and overflow exactly characterised |
| Mbuf.FromBytes | sw-engine/engine/src/dpdk/mbuf.rs:143-148 | given allocation, succeeds exactly for 0 < length < tailroom and then holds the bytes; otherwise the buffer is freed |
| Mbuf.ExtendMeans | sw-engine/engine/src/dpdk/mbuf.rs:201-221 | the data before the gap and after it are the data; refused edits change nothing |
| Mbuf.ShrinkMeans | sw-engine/engine/src/dpdk/mbuf.rs:227-246 | the data without the range; refused edits change nothing |
| Mbuf.WriteMeans | sw-engine/engine/src/dpdk/mbuf.rs:293-358 | the data with the range overwritten; refused edits change nothing |
| Mbuf.EditRefines | sw-engine/engine/src/dpdk/mbuf.rs:201-267 | one edit of the memory agrees with the edit of a plain byte list, which has its own conditions |
| Mbuf.RunRefines | sw-engine/engine/src/dpdk/mbuf.rs:201-267 | any run of edits is gap-insert, range-delete, prefix and overwrite on a byte list |
| Mbuf.LastByteIsNeverReached | sw-engine/engine/src/dpdk/mbuf.rs:204 | the strict bound keeps the last byte of a buffer out of every run |
| Mbuf.ExtendThenShrink | sw-engine/engine/src/dpdk/mbuf.rs:201-246 | shrinking by what was extended restores the data |
| Mbuf.ExtendThenWrite | sw-engine/engine/src/dpdk/mbuf.rs:286-358 | extending first, as the documentation asks, makes a write insert without overwriting |
| Transmit.MbufFreeBulk | sw-engine/engine/src/dpdk/mod.rs:189-213 | non-empty batches that concatenate to the input; where batches are cut, how many, and to which pool they go |
| Transmit.HomeIffOnePool | sw-engine/engine/src/dpdk/mod.rs:193-206 | all buffers go back to their own pool exactly when there is one pool |
| Transmit.Transmit | sw-engine/engine/src/dpdk/port.rs:150-180 | the loop ends, and settles the buffers as the recursive description `Run` of the exchange with the driver |
| Transmit.RunConserves | sw-engine/engine/src/dpdk/port.rs:153-168 | what was sent, then what is left, is the input in order |
| Transmit.RunCounts | sw-engine/engine/src/dpdk/port.rs:154-179 | bound on the driver calls; the loop ends without a refusal exactly when all offered buffers were taken |
| Transmit.RunExchanges | sw-engine/engine/src/dpdk/port.rs:154-179 | the calls one by one: each takes as much as the driver wants of what is left, and another follows exactly when that was some but not all |
| Transmit.TransmitConserves | sw-engine/engine/src/dpdk/port.rs:150-180 | sent, returned and leaked buffers are the input, each once and in order; panics exactly on the empty list; leaks all but the length mod 65536, exactly when the driver took that many of a longer list |
| Transmit.LeakIff | sw-engine/engine/src/dpdk/port.rs:154 | the exact lengths that some driver makes leak |
| PacketQueue.ArrayQueue.Push | sw-engine/engine/src/runtime/engine.rs:164-170 | appends, or hands the burst back when full |
| PacketQueue.ArrayQueue.Pop | sw-engine/engine/src/runtime/engine.rs:183-184 | takes the oldest burst, or none when empty |
| PacketQueue.Nic.Receive | sw-engine/engine/src/dpdk/port.rs:127-147 | the first 32 packets at most of those that the card chooses |
| PacketQueue.PolledAt | sw-engine/engine/src/runtime/engine.rs:161-168 | burst `i` of a pass is the first 32 packets that wait at port `i` |
| PacketQueue.PollPorts | sw-engine/engine/src/runtime/engine.rs:161-171 | the inner loop: one more burst of every port, queued while there is a place and else dropped |
| PacketQueue.FillQueue | sw-engine/engine/src/runtime/engine.rs:160-172 | ends with a full queue that keeps the first bursts polled, in order, and drops the rest |
| PacketQueue.FillCounts | sw-engine/engine/src/runtime/engine.rs:160-172 | ceil(free/ports) passes, fewer drops than ports, all in the last pass |
| PacketQueue.DataPlane.ProcessBurst | sw-engine/engine/src/runtime/engine.rs:187-205 | the loop over one burst is a left fold of `Process` |
| PacketQueue.DataPlane.ProcessPackets | sw-engine/engine/src/runtime/engine.rs:181-211 | empties the queue as one left fold over all packets in queue order; the `None` branch is dead with no other consumer |
| PacketQueue.FlattenHolds | sw-engine/engine/src/runtime/engine.rs:182-205 | packet `j` of burst `i` has its place after all packets of the bursts before, with the port of its burst, and there are no others |
| PacketQueue.ProcessAllConcat | sw-engine/engine/src/runtime/engine.rs:181-211 | draining in parts is draining at once |
| PacketQueue.FoldLearns | sw-engine/engine/src/runtime/engine.rs:192-203 | the forwarding table has learnt the history of (destination MAC, destination IP), and every packet is passed on once, in order |
| PacketQueue.PortmapHoldsLast | sw-engine/engine/src/runtime/engine.rs:195-196 | the port map holds the last five-tuple of a port |
| PacketQueue.PortmapKeepsOthers | sw-engine/engine/src/runtime/engine.rs:195-196 | the port map is unchanged at ports without packets |
| Interleaving.StepConserves | sw-engine/engine/src/runtime/engine.rs:147-211 | one atomic step of any thread moves buffers between places without losing or copying one |
| Interleaving.ExactlyOnePlace | sw-engine/engine/src/runtime/engine.rs:147-211 | in every run each received buffer is in exactly one of in hand, queued, processed, dropped, once |
| Interleaving.BoundedFifo | sw-engine/engine/src/runtime/engine.rs:160-184 | the queue stays within capacity and is first-in first-out under any number of threads |
| Interleaving.DropFoundFull | sw-engine/engine/src/runtime/engine.rs:164-170 | every drop of every run, so also the last, was a push to a full queue |
| Interleaving.DropsAreExcess | sw-engine/engine/src/runtime/engine.rs:160-172 | received bursts are accepted, dropped or about to be pushed; the drops are in excess of the capacity, so with no more bursts than places none is dropped |
| Interleaving.NoneBranchIff | sw-engine/engine/src/runtime/engine.rs:182-209 | when the branch that should not have run is reachable, both ways |
| Interleaving.HappenedIff | sw-engine/engine/src/runtime/engine.rs:154-211 | a receiver has returned exactly if it was told to while it asked; a processing thread exactly if it checked an empty queue; the `None` branch was taken exactly if a pop found the queue empty |
| Interleaving.WaitsToStart | sw-engine/engine/src/runtime/engine.rs:154-182 | a receiver starts by asking whether to stop, a processing thread by checking the queue |
| Interleaving.AcceptedInOrder | sw-engine/engine/src/runtime/engine.rs:160-172 | with one receiver the queue takes a subsequence of what was received |
| Interleaving.ProcessedInOrder | sw-engine/engine/src/runtime/engine.rs:182-205 | with one consumer packets are processed in the order they left the queue |
| Interleaving.OrderIsKept | sw-engine/engine/src/runtime/engine.rs:147-211 | with one of each, processed packets are an in-order selection of the received ones, numbers ascending, also per port |
| Alone.PassAlone | sw-engine/engine/src/runtime/engine.rs:160-172 | the steps of a receiver alone over a queue with a place: one burst of at most 32 from every port in order, the first queued, those after the last place lost |
| Alone.FillAlone | sw-engine/engine/src/runtime/engine.rs:160-172 | it goes on in whole passes until the queue is full, losing fewer bursts than there are ports |
| Alone.RoundAlone | sw-engine/engine/src/runtime/engine.rs:154-173 | not told to stop, it asks again with a full queue; on a queue that was full it receives nothing |
| Alone.DrainAlone | sw-engine/engine/src/runtime/engine.rs:181-211 | the steps of a processing thread alone: every packet in order, then it returns with the queue empty, after exactly so many steps |
| RoutingTable.RoutingTable.AddPair | sw-engine/engine/src/net/routing_table.rs:22-37 | the new state of both tables, which the history lemmas are about |
| RoutingTable.RoutingTable.ContainsMac | sw-engine/engine/src/net/routing_table.rs:40-47 | whether the MAC is a key |
| RoutingTable.RoutingTable.ContainsIp | sw-engine/engine/src/net/routing_table.rs:50-57 | whether the IP is a key |
| RoutingTable.RoutingTable.GetMac | sw-engine/engine/src/net/routing_table.rs:60-69 | the stored MAC, if any |
| RoutingTable.RoutingTable.GetIp | sw-engine/engine/src/net/routing_table.rs:72-81 | the stored IP, if any |
| RoutingTable.KeysAreSeen | sw-engine/engine/src/net/routing_table.rs:22-37 | after any history the keys are exactly the addresses seen |
| RoutingTable.AnswersWereSeen | sw-engine/engine/src/net/routing_table.rs:22-37 | every stored pair was added, and values are keys of the other table |
| RoutingTable.NewsIsLearnt | sw-engine/engine/src/net/routing_table.rs:22-37 | after any history a call with a new address is answered both ways, every other key keeps its answer, and any other call changes nothing |
| RoutingTable.MacAnswersLastNews | sw-engine/engine/src/net/routing_table.rs:29-33 | a MAC is answered with the IP of its last pair that brought a new address |
| RoutingTable.IpAnswersLastNews | sw-engine/engine/src/net/routing_table.rs:29-34 | an IP is answered with the MAC of its last pair that brought a new address |
| RoutingTable.SomePairAgrees | sw-engine/engine/src/net/routing_table.rs:29-34 | after any non-empty history some added pair agrees in both directions |
| RoutingTable.MirroredIffBalanced | sw-engine/engine/src/net/routing_table.rs:10-37 | the tables are inverses after every step exactly when no call brings one new and one known address |
| RoutingTable.AllAnsweredIffNoConflict | sw-engine/engine/src/net/routing_table.rs:22-81 | every added pair is answered both ways exactly when no two conflict |
| RoutingTable.NoConflictMirrors | sw-engine/engine/src/net/routing_table.rs:22-81 | without conflicts the tables are exact inverses |
| RoutingTable.MovedAddressIsIgnored | sw-engine/engine/src/net/routing_table.rs:29-34 | a pair of two known addresses changes nothing, even when they belong to different pairs |
| Lifecycle.RingNameInjective | sw-engine/engine/src/dpdk/memring.rs:97-106 | names of rings differ between clients and directions |
| Lifecycle.Dpdk.RingNew | sw-engine/engine/src/dpdk/memring.rs:72-94 | a ring exactly when DPDK is willing and the name is free; `name()` gives the name it is live under |
| Lifecycle.Dpdk.RingFree | sw-engine/engine/src/dpdk/memring.rs:166-173 | dropping a ring releases its name |
| Lifecycle.Dpdk.ChannelDrop | sw-engine/engine/src/dpdk/memring.rs:178-202 | dropping a channel releases both rings |
| Lifecycle.Engine.SetClientStatus | sw-engine/engine/src/runtime/engine.rs:84-121 | the early returns and drops of every branch amount to the transition `Handle`, result included |
| Lifecycle.Engine.CheckNSetClientStatus | sw-engine/engine/src/runtime/engine.rs:126-133 | handles a waiting message once, drops its error and empties the cell |
| Lifecycle.RunConsistent | sw-engine/engine/src/runtime/engine.rs:84-121 | in every history the maps have the same clients, each with its own rings, and those are the live rings |
| Lifecycle.ChannelsAreRight | sw-engine/engine/src/runtime/engine.rs:86-107 | in every history the channel of a client sends on its live ring "TX-id" and receives on its live ring "RX-id" |
| Lifecycle.LiveRings | sw-engine/engine/src/runtime/engine.rs:84-121 | in every history the live rings are the foreign ones and "RX-id" and "TX-id" of each client |
| Lifecycle.Outcomes | sw-engine/engine/src/runtime/engine.rs:84-121 | the result of each message, error included; live clients are never overwritten, the second remove never fails, failures change nothing |
| Lifecycle.ClientsAreIndependent | sw-engine/engine/src/runtime/engine.rs:84-133 | the status and rings of a client depend only on its own messages and their outcomes |
| Lifecycle.ReadyIff | sw-engine/engine/src/runtime/engine.rs:84-133 | READY exactly when registered and then reported ready since the last removal |
| Cidr.AndMask | sw-engine/engine/src/net/cidr/v4.rs:127-129 | masking clears the host bits |
| Cidr.NewBuilds | sw-engine/engine/src/net/cidr/v4.rs:132-140 | lengths 1 to w give a block of that length, 0 gives a single address, others are malformed |
| Cidr.NetmaskLengthIff | sw-engine/engine/src/net/cidr/v6.rs:42-51 | a mask is accepted with length n exactly when it is 2^w - 2^(w-n) |
| Cidr.WithNetmaskKeeps | sw-engine/engine/src/net/cidr/v6.rs:148-151 | accepts exactly the masks of leading ones and keeps mask and address |
| Cidr.ContainsIffInRange | sw-engine/engine/src/net/cidr/v4.rs:102-129 | membership is the interval from network to broadcast; the network is the address rounded down, and the block fits the address space |
| Cidr.NestedOrDisjoint | sw-engine/engine/src/net/cidr/v4.rs:106-109 | two blocks are nested or disjoint |
| Cidr.IterFitsIff | sw-engine/engine/src/net/cidr/v6.rs:37-77 | iteration starts without overflow exactly when the size fits a usize, and ends at the broadcast address |
| Cidr.DefaultDoesNotIterate | sw-engine/engine/src/net/cidr/v4.rs:69-77 | the default block overflows at either width |
| Cidr.DefaultIsEverything | sw-engine/engine/src/net/cidr/v4.rs:102-129 | the default block contains every address and has length 0 |
| Cidr.CidrIterator.Next | sw-engine/engine/src/net/cidr/v4.rs:79-91 | yields the rest one by one, then none forever, without overflow |
| Cidr.Collect | sw-engine/engine/src/net/cidr/v4.rs:37-91 | iterating yields the addresses from network to broadcast and ends |
| Cidr.YieldsTheBlock | sw-engine/engine/src/net/cidr/v4.rs:63-129 | these are the contained addresses, each once, ascending, `size()` many |
| Text.NumberIff | sw-engine/engine/src/net/cidr/v4.rs:163 | over all texts, which numbers `from_str_radix` accepts |
| Text.LeadingDigit | sw-engine/engine/src/net/mac.rs:74 | each digit of a number counts by its position |
| Text.DecimalDigit | sw-engine/engine/src/net/cidr/v4.rs:180 | the digits of a printed number |
| Text.JoinSplit | sw-engine/engine/src/net/cidr/v4.rs:158 | the pieces of a text, joined, are the text |
| Ipv4Text.PrintAddrIs | sw-engine/engine/src/net/cidr/v4.rs:180 | the first number of the text is the highest byte |
| Ipv4Text.AddrParsesIff | sw-engine/engine/src/net/cidr/v4.rs:160-161 | a text is an address exactly when it is how that address prints, where leading zeros are not taken |
| Ipv4Text.ParsesIff | sw-engine/engine/src/net/cidr/v4.rs:157-175 | over all texts, by their pieces at slashes: what parses, to what, and the error otherwise |
| Ipv4Text.LengthTextParses | sw-engine/engine/src/net/cidr/v4.rs:157-164 | address/length parses to what `new` returns, for any length |
| Ipv4Text.NetmaskTextParses | sw-engine/engine/src/net/cidr/v4.rs:165-170 | address/netmask parses to what `with_netmask` returns, for any netmask |
| Ipv4Text.NotationsAgree | sw-engine/engine/src/net/cidr/v4.rs:157-175 | both notations of a prefix parse to the same block |
| Ipv4Text.PrintParsesIff | sw-engine/engine/src/net/cidr/v4.rs:154-181 | the printed form parses back exactly when the mask is not zero |
| Ipv4Text.ParsedIsBuilt | sw-engine/engine/src/net/cidr/v4.rs:157-175 | whatever text parses, the block is built and survives printing and parsing |
| MacText.PrintParses | sw-engine/engine/src/net/mac.rs:47-86 | parsing the printed form gives the address back |
| MacText.ParsesIffSixBytes | sw-engine/engine/src/net/mac.rs:71-85 | over all texts, which address a text parses to: its six hexadecimal pieces in order, others ignored; otherwise the error holds the text |
| MacText.JunkIsIgnored | sw-engine/engine/src/net/mac.rs:72-76 | text without a byte may be added at either end |

## Left out

- Foreign calls (EAL, ports, thread affinity, memory pools and zones): only what callers rely on is assumed.
- zmq, JSON, timers and the container side: messages start as the id and code that `get_msg` stores; what `get_msg` loses by overwriting its cell or by truncating an id to u16 is not modelled.
- `tx_to_clients` has no body in the engine and panics; the model takes it as a sink that consumes the buffer.
- `EngineRingMap::send` and `receive`: only unused wrappers of the engine call them; an enqueue that DPDK refuses loses its packet, and `dequeue` hands DPDK the address of a temporary.
- Header parsing: the five-tuple is given with the packet, and packets are IPv4.
- IPv6 text: its "::" form belongs to the standard library. The 128-bit arithmetic is `Cidr` with w = 128.
- Cloned buffers (`MbufInner::Clone`): never constructed.
- RoutingTable.RoutingTable.AddPair: does not model the locks; the code takes read locks while it holds the write locks of the same tables, so the model reads the held tables.
- PacketQueue.FillQueue: needs a port or a full queue, because without either the loop of the engine never ends.
- PacketQueue.DataPlane.ProcessPackets: with nobody else at work; other threads are in `Interleaving`, whose buffers carry no headers.
- Mbuf.Mbuf.ReadDataSlice: stands for `read_data` and `read_data_slice`, with the item size multiplied out and the bytes in place of the returned pointer.
- Mbuf.Mbuf.WriteDataSlice: stands for `write_data` and `write_data_slice`, with the items as bytes.
- The messages inside errors of text parsing: only the kind of the error is modelled.
- Configuration, metrics, logging, debug output, `PortBuilder`: display and option plumbing.
