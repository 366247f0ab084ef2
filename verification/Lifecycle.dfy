/** Clients registering with the engine, and the DPDK rings made and freed for them. */
module Lifecycle {
  import opened Machine
  import opened Text

  // ----- Rings -----

  datatype RingType = RX | TX

  /** The name `set_client_status` asks DPDK to register a ring under. */
  function RingName(rtype: RingType, id: u16): string {
    (if rtype.RX? then "RX-" else "TX-") + Decimal(id as nat)
  }

  /** `raw` stands for the pointer to the DPDK ring: the name it is live under. */
  datatype Ring = Ring(clientId: u16, rtype: RingType, raw: string) {
    /** `Ring::name`, built again from the client. */
    function Name(): string {
      (match rtype case RX => "RX-" case TX => "TX-") + Decimal(clientId as nat)
    }
  }

  datatype Channel = Channel(tx: Ring, rx: Ring)

  function ChannelOf(id: u16): Channel {
    Channel(Ring(id, TX, RingName(TX, id)), Ring(id, RX, RingName(RX, id)))
  }

  /** Rings of different clients or directions have different names. */
  lemma RingNameInjective(t: RingType, i: u16, u: RingType, j: u16)
    ensures RingName(t, i) == RingName(u, j) <==> t == u && i == j
  {
    if RingName(t, i) == RingName(u, j) {
      assert RingName(t, i)[0] == if t.RX? then 'R' else 'T';
      assert RingName(u, j)[0] == if u.RX? then 'R' else 'T';
      assert RingName(t, i)[3..] == Decimal(i as nat) && RingName(u, j)[3..] == Decimal(j as nat);
      DecimalInjective(i as nat, j as nat);
    }
  }

  // ----- What a message does -----

  datatype ClientStatus = STARTING | READY

  datatype Error =
    | NoRxRing
    | NoTxRing
    | NotSent
    | NoClientToSet       // "Failed to get client"
    | NoClientToRemove    // "Failed to remove client", from the status map
    | NoChannelToRemove   // "Failed to remove client", from the ring map
    | UnknownStatus

  /** What DPDK and the socket answer to the calls of one message, in case they are made. */
  datatype Answers = Answers(rxRing: bool, txRing: bool, send: bool)

  datatype Msg = Msg(id: u16, code: u64, answers: Answers)

  /** The two maps, and the names of all rings live in DPDK. */
  datatype State = State(status: map<u16, ClientStatus>, rings: map<u16, Channel>, live: set<string>)

  function Raws(c: Channel): set<string> {
    {c.tx.raw, c.rx.raw}
  }

  function Displaced(s: State, id: u16): set<string> {
    if id in s.rings then Raws(s.rings[id]) else {}
  }

  /** DPDK refuses a name that is live. */
  function Refusal(s: State, m: Msg): Option<Error> {
    if !m.answers.rxRing || RingName(RX, m.id) in s.live then Some(NoRxRing)
    else if !m.answers.txRing || RingName(TX, m.id) in s.live then Some(NoTxRing)
    else if !m.answers.send then Some(NotSent)
    else None
  }

  function Handle(s: State, m: Msg): (State, Result<(), Error>) {
    if m.code == 0 then
      var refusal := Refusal(s, m);
      if refusal.Some? then (s, Err(refusal.value))
      else (State(s.status[m.id := STARTING], s.rings[m.id := ChannelOf(m.id)],
                  s.live + Raws(ChannelOf(m.id)) - Displaced(s, m.id)), Ok(()))
    else if m.code == 1 then
      if m.id !in s.status then (s, Err(NoClientToSet))
      else (s.(status := s.status[m.id := READY]), Ok(()))
    else if m.code == 2 then
      if m.id !in s.status then (s, Err(NoClientToRemove))
      else if m.id !in s.rings then (s.(status := s.status - {m.id}), Err(NoChannelToRemove))
      else (State(s.status - {m.id}, s.rings - {m.id}, s.live - Displaced(s, m.id)), Ok(()))
    else (s, Err(UnknownStatus))
  }

  /** An engine without clients, in a DPDK where rings of others are live. */
  function Start(foreign: set<string>): State {
    State(map[], map[], foreign)
  }

  function Run(foreign: set<string>, history: seq<Msg>): State {
    if history == [] then Start(foreign)
    else Handle(Run(foreign, history[..|history| - 1]), history[|history| - 1]).0
  }

  // ----- What every history keeps -----

  ghost function Names(ids: set<u16>): set<string> {
    (set id | id in ids :: RingName(RX, id)) + (set id | id in ids :: RingName(TX, id))
  }

  /** The two maps have the same clients, each with its own two rings, and those are
      exactly the rings that are live beside the foreign ones. */
  ghost predicate Consistent(s: State, foreign: set<string>) {
    && s.status.Keys == s.rings.Keys
    && (forall id :: id in s.rings ==> s.rings[id] == ChannelOf(id))
    && s.live == foreign + Names(s.rings.Keys)
    && foreign !! Names(s.rings.Keys)
  }

  lemma NameIn(t: RingType, id: u16, ids: set<u16>)
    ensures RingName(t, id) in Names(ids) <==> id in ids
  {
    forall i: u16, u: RingType
      ensures RingName(t, id) == RingName(u, i) <==> t == u && i == id
    {
      RingNameInjective(t, id, u, i);
    }
  }

  lemma NamesMore(ids: set<u16>, id: u16)
    ensures Names(ids + {id}) == Names(ids) + Raws(ChannelOf(id))
  {
  }

  lemma NamesLess(ids: set<u16>, id: u16)
    requires id in ids
    ensures Names(ids - {id}) == Names(ids) - Raws(ChannelOf(id))
  {
    NameIn(RX, id, ids - {id});
    NameIn(TX, id, ids - {id});
    assert ids == (ids - {id}) + {id};
    NamesMore(ids - {id}, id);
  }

  lemma {:induction false} StepConsistent(s: State, m: Msg, foreign: set<string>)
    requires Consistent(s, foreign)
    ensures Consistent(Handle(s, m).0, foreign)
  {
    if m.code == 0 && Refusal(s, m).None? {
      NameIn(RX, m.id, s.rings.Keys);
      NamesMore(s.rings.Keys, m.id);
      assert Handle(s, m).0.rings.Keys == s.rings.Keys + {m.id};
    } else if m.code == 2 && m.id in s.status {
      NamesLess(s.rings.Keys, m.id);
      assert Handle(s, m).0.rings.Keys == s.rings.Keys - {m.id};
    }
  }

  /** For every history of messages and every answer of DPDK and the socket. */
  lemma {:induction false} RunConsistent(foreign: set<string>, history: seq<Msg>)
    ensures Consistent(Run(foreign, history), foreign)
    decreases |history|
  {
    if history != [] {
      RunConsistent(foreign, history[..|history| - 1]);
      StepConsistent(Run(foreign, history[..|history| - 1]), history[|history| - 1], foreign);
    }
  }

  /** In every history the channel of a client sends on the ring "TX-id" and receives on
      the ring "RX-id", both made for that client. */
  lemma ChannelsAreRight(foreign: set<string>, history: seq<Msg>, id: u16)
    ensures var rings := Run(foreign, history).rings;
            id in rings ==>
              && rings[id].tx.rtype == TX && rings[id].rx.rtype == RX
              && rings[id].tx.clientId == rings[id].rx.clientId == id
              && rings[id].tx.raw == "TX-" + Decimal(id as nat) && rings[id].rx.raw == "RX-" + Decimal(id as nat)
              && rings[id].tx.raw in Run(foreign, history).live && rings[id].rx.raw in Run(foreign, history).live
  {
    var s := Run(foreign, history);
    RunConsistent(foreign, history);
    NameIn(TX, id, s.rings.Keys);
    NameIn(RX, id, s.rings.Keys);
  }

  /** In every history the live rings are the foreign ones and two for each client. */
  lemma LiveRings(foreign: set<string>, history: seq<Msg>, name: string)
    ensures var s := Run(foreign, history);
            name in s.live <==>
              || name in foreign
              || exists id :: && id in s.status
                              && (name == "RX-" + Decimal(id as nat) || name == "TX-" + Decimal(id as nat))
  {
    var s := Run(foreign, history);
    RunConsistent(foreign, history);
    assert forall id :: && RingName(RX, id) == "RX-" + Decimal(id as nat)
                        && RingName(TX, id) == "TX-" + Decimal(id as nat);
  }

  /** After every history: a registration succeeds exactly when the client is not
      registered, nobody else has its ring names, and every call goes well; so it never
      overwrites a client. The second remove never fails. A message that fails leaves
      the maps and the live rings as they were, and its error says what failed first. */
  lemma Outcomes(foreign: set<string>, history: seq<Msg>, m: Msg)
    ensures var s, r := Run(foreign, history), Handle(Run(foreign, history), m).1;
            var rx := m.answers.rxRing && RingName(RX, m.id) !in foreign && m.id !in s.status;
            var tx := m.answers.txRing && RingName(TX, m.id) !in foreign;
            && (m.code == 0 ==>
                  r == if !rx then Err(NoRxRing) else if !tx then Err(NoTxRing)
                       else if !m.answers.send then Err(NotSent) else Ok(()))
            && (m.code == 0 && r.Ok? ==> m.id !in s.status && m.id !in s.rings)
            && (m.code == 1 ==> r == if m.id in s.status then Ok(()) else Err(NoClientToSet))
            && (m.code == 2 ==> r == if m.id in s.status then Ok(()) else Err(NoClientToRemove))
            && (m.code > 2 ==> r == Err(UnknownStatus))
            && (r.Err? ==> Handle(s, m).0 == s)
  {
    var s := Run(foreign, history);
    RunConsistent(foreign, history);
    NameIn(RX, m.id, s.rings.Keys);
    NameIn(TX, m.id, s.rings.Keys);
  }

  // ----- Clients do not interfere -----

  /** All that concerns one client. */
  datatype Local = Local(status: Option<ClientStatus>, channel: Option<Channel>, rxLive: bool, txLive: bool)

  function View(s: State, id: u16): Local {
    Local(if id in s.status then Some(s.status[id]) else None,
          if id in s.rings then Some(s.rings[id]) else None,
          RingName(RX, id) in s.live, RingName(TX, id) in s.live)
  }

  /** The engine for a single client. */
  function HandleLocal(l: Local, id: u16, m: Msg): (Local, Result<(), Error>) {
    if m.code == 0 then
      if !m.answers.rxRing || l.rxLive then (l, Err(NoRxRing))
      else if !m.answers.txRing || l.txLive then (l, Err(NoTxRing))
      else if !m.answers.send then (l, Err(NotSent))
      else (Local(Some(STARTING), Some(ChannelOf(id)), true, true), Ok(()))
    else if m.code == 1 then
      if l.status.None? then (l, Err(NoClientToSet)) else (l.(status := Some(READY)), Ok(()))
    else if m.code == 2 then
      if l.status.None? then (l, Err(NoClientToRemove)) else (Local(None, None, false, false), Ok(()))
    else (l, Err(UnknownStatus))
  }

  function OfClient(history: seq<Msg>, id: u16): seq<Msg> {
    if history == [] then [] else
    var n := |history| - 1;
    OfClient(history[..n], id) + if history[n].id == id then [history[n]] else []
  }

  function RunLocal(l: Local, id: u16, history: seq<Msg>): Local {
    if history == [] then l
    else HandleLocal(RunLocal(l, id, history[..|history| - 1]), id, history[|history| - 1]).0
  }

  /** The rings of a client are live with it, unless they are foreign. */
  lemma RingsAreLive(s: State, id: u16, foreign: set<string>)
    requires Consistent(s, foreign)
    ensures View(s, id).rxLive <==> id in s.rings || RingName(RX, id) in foreign
    ensures View(s, id).txLive <==> id in s.rings || RingName(TX, id) in foreign
    ensures id in s.rings ==> RingName(RX, id) !in foreign && RingName(TX, id) !in foreign
  {
    NameIn(RX, id, s.rings.Keys);
    NameIn(TX, id, s.rings.Keys);
  }

  lemma {:induction false} OwnStep(s: State, m: Msg, foreign: set<string>)
    requires Consistent(s, foreign)
    ensures HandleLocal(View(s, m.id), m.id, m) == (View(Handle(s, m).0, m.id), Handle(s, m).1)
  {
    StepConsistent(s, m, foreign);
    RingsAreLive(s, m.id, foreign);
    RingsAreLive(Handle(s, m).0, m.id, foreign);
  }

  lemma {:induction false} OthersStep(s: State, m: Msg, id: u16, foreign: set<string>)
    requires Consistent(s, foreign) && m.id != id
    ensures View(Handle(s, m).0, id) == View(s, id)
  {
    StepConsistent(s, m, foreign);
    RingsAreLive(s, id, foreign);
    RingsAreLive(Handle(s, m).0, id, foreign);
  }

  lemma RunLocalMore(l: Local, id: u16, history: seq<Msg>, m: Msg)
    ensures RunLocal(l, id, history + [m]) == HandleLocal(RunLocal(l, id, history), id, m).0
    ensures history + [] == history
  {
    assert (history + [m])[..|history|] == history;
  }

  /** The status and the rings of a client are those it would have in an engine that gets
      its messages only. */
  lemma {:induction false} ClientsAreIndependent(foreign: set<string>, history: seq<Msg>, id: u16)
    ensures View(Run(foreign, history), id) == RunLocal(View(Start(foreign), id), id, OfClient(history, id))
    decreases |history|
  {
    if history != [] {
      var n := |history| - 1;
      var s, m := Run(foreign, history[..n]), history[n];
      ClientsAreIndependent(foreign, history[..n], id);
      RunConsistent(foreign, history[..n]);
      if m.id == id {
        OwnStep(s, m, foreign);
      } else {
        OthersStep(s, m, id, foreign);
      }
      RunLocalMore(View(Start(foreign), id), id, OfClient(history[..n], id), m);
    }
  }

  // ----- When a client is ready -----

  /** Message `j` registers the client, and no later message removes it. */
  ghost predicate RegisteredAt(foreign: set<string>, history: seq<Msg>, id: u16, j: nat) {
    && j < |history|
    && history[j].id == id && history[j].code == 0
    && Handle(Run(foreign, history[..j]), history[j]).1.Ok?
    && forall k :: j < k < |history| && history[k].id == id ==> history[k].code != 2
  }

  /** Message `k` reports the client ready, after `j` registered it. */
  ghost predicate ReadyAt(foreign: set<string>, history: seq<Msg>, id: u16, j: nat, k: nat) {
    RegisteredAt(foreign, history, id, j) && j < k < |history| && history[k].id == id && history[k].code == 1
  }

  ghost predicate IsRegistered(foreign: set<string>, history: seq<Msg>, id: u16) {
    exists j: nat :: RegisteredAt(foreign, history, id, j)
  }

  ghost predicate IsReady(foreign: set<string>, history: seq<Msg>, id: u16) {
    exists j: nat, k: nat :: ReadyAt(foreign, history, id, j, k)
  }

  lemma RegisteredLess(foreign: set<string>, history: seq<Msg>, id: u16)
    requires history != [] && IsRegistered(foreign, history, id)
    ensures var n := |history| - 1;
            || (history[n].id == id && history[n].code == 0 && Handle(Run(foreign, history[..n]), history[n]).1.Ok?)
            || (IsRegistered(foreign, history[..n], id) && !(history[n].id == id && history[n].code == 2))
  {
    var n := |history| - 1;
    var j: nat :| RegisteredAt(foreign, history, id, j);
    assert j < n ==> history[..n][..j] == history[..j];
    assert j < n ==> RegisteredAt(foreign, history[..n], id, j);
  }

  lemma RegisteredMore(foreign: set<string>, history: seq<Msg>, id: u16)
    requires history != []
    ensures var n := |history| - 1;
            var before, m := history[..n], history[n];
            (m.id == id && m.code == 0 && Handle(Run(foreign, before), m).1.Ok?)
            || (IsRegistered(foreign, before, id) && !(m.id == id && m.code == 2))
            ==> IsRegistered(foreign, history, id)
  {
    var n := |history| - 1;
    var before, m := history[..n], history[n];
    if m.id == id && m.code == 0 && Handle(Run(foreign, before), m).1.Ok? {
      assert RegisteredAt(foreign, history, id, n);
    } else if !(m.id == id && m.code == 2) {
      if j: nat :| RegisteredAt(foreign, before, id, j) {
        assert before[..j] == history[..j];
        assert RegisteredAt(foreign, history, id, j);
      }
    }
  }

  lemma ReadyLess(foreign: set<string>, history: seq<Msg>, id: u16)
    requires history != [] && IsReady(foreign, history, id)
    ensures var n := |history| - 1;
            || (history[n].id == id && history[n].code == 1 && IsRegistered(foreign, history[..n], id))
            || (IsReady(foreign, history[..n], id) && !(history[n].id == id && history[n].code == 2))
  {
    var n := |history| - 1;
    var before := history[..n];
    var j: nat, k: nat :| ReadyAt(foreign, history, id, j, k);
    assert before[..j] == history[..j];
    assert RegisteredAt(foreign, before, id, j);
    assert k < n ==> ReadyAt(foreign, before, id, j, k);
  }

  lemma ReadyMore(foreign: set<string>, history: seq<Msg>, id: u16)
    requires history != []
    ensures var n := |history| - 1;
            var before, m := history[..n], history[n];
            (m.id == id && m.code == 1 && IsRegistered(foreign, before, id))
            || (IsReady(foreign, before, id) && !(m.id == id && m.code == 2))
            ==> IsReady(foreign, history, id)
  {
    var n := |history| - 1;
    var before, m := history[..n], history[n];
    if m.id == id && m.code == 1 {
      if j: nat :| RegisteredAt(foreign, before, id, j) {
        assert before[..j] == history[..j];
        assert ReadyAt(foreign, history, id, j, n);
      }
    } else if !(m.id == id && m.code == 2) {
      if j: nat, k: nat :| ReadyAt(foreign, before, id, j, k) {
        assert before[..j] == history[..j];
        assert ReadyAt(foreign, history, id, j, k);
      }
    }
  }

  /** After every history a client is known exactly when it was registered and not removed
      since, and READY exactly when it also sent a ready message since. */
  lemma {:induction false} ReadyIff(foreign: set<string>, history: seq<Msg>, id: u16)
    ensures var s := Run(foreign, history);
            && (id in s.status <==> IsRegistered(foreign, history, id))
            && (id in s.status && s.status[id] == READY <==> IsReady(foreign, history, id))
    decreases |history|
  {
    if history != [] {
      var n := |history| - 1;
      ReadyIff(foreign, history[..n], id);
      RegisteredMore(foreign, history, id);
      ReadyMore(foreign, history, id);
      if IsRegistered(foreign, history, id) {
        RegisteredLess(foreign, history, id);
      }
      if IsReady(foreign, history, id) {
        ReadyLess(foreign, history, id);
      }
      Outcomes(foreign, history[..n], history[n]);
      ReadyIsRegistered(foreign, history[..n], id);
    }
  }

  lemma ReadyIsRegistered(foreign: set<string>, history: seq<Msg>, id: u16)
    ensures IsReady(foreign, history, id) ==> IsRegistered(foreign, history, id)
  {
  }

  // ----- The engine -----

  /** The rings live in DPDK. */
  class Dpdk {
    var live: set<string>

    constructor (foreign: set<string>)
      ensures live == foreign
    {
      live := foreign;
    }

    /** `rte_ring_create`: a null pointer if the name is live or DPDK is not willing. */
    method RingCreate(name: string, willing: bool) returns (raw: Option<string>)
      modifies this
      ensures raw == if willing && name !in old(live) then Some(name) else None
      ensures live == if raw.Some? then old(live) + {name} else old(live)
    {
      if !willing || name in live {
        return None;
      }
      live := live + {name};
      return Some(name);
    }

    /** `Drop for Ring`. */
    method RingFree(ring: Ring)
      modifies this
      ensures live == old(live) - {ring.raw}
    {
      live := live - {ring.raw};
    }

    /** Dropping a channel drops its fields in the order of declaration. */
    method ChannelDrop(channel: Channel)
      modifies this
      ensures live == old(live) - Raws(channel)
    {
      RingFree(channel.tx);
      RingFree(channel.rx);
    }

    /** `Ring::new`. */
    method RingNew(id: u16, rtype: RingType, willing: bool) returns (ring: Option<Ring>)
      modifies this
      ensures ring == if willing && RingName(rtype, id) !in old(live)
                      then Some(Ring(id, rtype, RingName(rtype, id))) else None
      ensures ring.Some? ==> ring.value.Name() == ring.value.raw
      ensures live == if ring.Some? then old(live) + {ring.value.raw} else old(live)
    {
      var raw := RingCreate(RingName(rtype, id), willing);
      if raw.None? {
        return None;
      }
      return Some(Ring(id, rtype, raw.value));
    }
  }

  class Engine {
    const dpdk: Dpdk
    var statusmap: map<u16, ClientStatus>
    var ringmap: map<u16, Channel>
    var newMsg: Option<(u16, u64)>

    ghost function Contents(): State
      reads this, dpdk
    {
      State(statusmap, ringmap, dpdk.live)
    }

    constructor (dpdk: Dpdk)
      ensures this.dpdk == dpdk && newMsg == None
      ensures Contents() == Start(dpdk.live)
    {
      this.dpdk, statusmap, ringmap, newMsg := dpdk, map[], map[], None;
    }

    method Register(id: u16, answers: Answers) returns (r: Result<(), Error>)
      modifies this`statusmap, this`ringmap, dpdk
      ensures (Contents(), r) == Handle(old(Contents()), Msg(id, 0, answers))
    {
      var rxQ := dpdk.RingNew(id, RX, answers.rxRing);
      if rxQ.None? {
        return Err(NoRxRing);
      }
      RingNameInjective(RX, id, TX, id);
      var txQ := dpdk.RingNew(id, TX, answers.txRing);
      if txQ.None? {
        dpdk.RingFree(rxQ.value);
        assert dpdk.live == old(dpdk.live);
        return Err(NoTxRing);
      }
      if !answers.send {
        dpdk.RingFree(txQ.value);
        dpdk.RingFree(rxQ.value);
        assert dpdk.live == old(dpdk.live);
        return Err(NotSent);
      }
      var displaced := if id in ringmap then Some(ringmap[id]) else None;
      ringmap := ringmap[id := Channel(txQ.value, rxQ.value)];
      if displaced.Some? {
        dpdk.ChannelDrop(displaced.value);
      }
      statusmap := statusmap[id := STARTING];
      assert dpdk.live == old(dpdk.live) + Raws(ChannelOf(id)) - old(Displaced(Contents(), id));
      return Ok(());
    }

    method SetReady(id: u16) returns (r: Result<(), Error>)
      modifies this`statusmap
      ensures forall answers :: (Contents(), r) == Handle(old(Contents()), Msg(id, 1, answers))
    {
      if id !in statusmap {
        return Err(NoClientToSet);
      }
      statusmap := statusmap[id := READY];
      return Ok(());
    }

    method Remove(id: u16) returns (r: Result<(), Error>)
      modifies this`statusmap, this`ringmap, dpdk
      ensures forall answers :: (Contents(), r) == Handle(old(Contents()), Msg(id, 2, answers))
    {
      if id !in statusmap {
        return Err(NoClientToRemove);
      }
      statusmap := statusmap - {id};
      if id !in ringmap {
        return Err(NoChannelToRemove);
      }
      var channel := ringmap[id];
      ringmap := ringmap - {id};
      dpdk.ChannelDrop(channel);
      return Ok(());
    }

    /** Register a new client or change its status. */
    method SetClientStatus(id: u16, m: u64, answers: Answers) returns (r: Result<(), Error>)
      modifies this`statusmap, this`ringmap, dpdk
      ensures (Contents(), r) == Handle(old(Contents()), Msg(id, m, answers))
    {
      if m == 0 {
        r := Register(id, answers);
      } else if m == 1 {
        r := SetReady(id);
      } else if m == 2 {
        r := Remove(id);
      } else {
        return Err(UnknownStatus);
      }
    }

    /** Handles the message in the cell, if any, discards its error and empties the cell. */
    method CheckNSetClientStatus(answers: Answers)
      modifies this, dpdk
      ensures newMsg == None
      ensures Contents() == match old(newMsg)
                        case Some(val) => Handle(old(Contents()), Msg(val.0, val.1, answers)).0
                        case None => old(Contents())
    {
      if newMsg.Some? {
        var val := newMsg.value;
        var discarded := SetClientStatus(val.0, val.1, answers);
        newMsg := None;
      }
    }
  }
}
