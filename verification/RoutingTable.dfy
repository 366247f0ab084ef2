/** The two tables that map MAC to IP addresses and back. */
module RoutingTable {
  import opened Machine
  import opened Net

  datatype Pair = Pair(mac: MacAddr, ip: Ipv4Addr)

  datatype Tables = Tables(byMac: map<MacAddr, Ipv4Addr>, byIp: map<Ipv4Addr, MacAddr>)

  const EMPTY := Tables(map[], map[])

  function Add(t: Tables, p: Pair): Tables {
    if p.mac !in t.byMac || p.ip !in t.byIp then Tables(t.byMac[p.mac := p.ip], t.byIp[p.ip := p.mac]) else t
  }

  function AddAll(t: Tables, history: seq<Pair>): Tables {
    if history == [] then t else Add(AddAll(t, history[..|history| - 1]), history[|history| - 1])
  }

  /** The tables after a history of `add` calls, oldest first. */
  function After(history: seq<Pair>): Tables {
    AddAll(EMPTY, history)
  }

  ghost predicate SeenMac(history: seq<Pair>, mac: MacAddr) {
    exists i :: 0 <= i < |history| && history[i].mac == mac
  }

  ghost predicate SeenIp(history: seq<Pair>, ip: Ipv4Addr) {
    exists i :: 0 <= i < |history| && history[i].ip == ip
  }

  // ----- What every history keeps -----

  lemma SeenMore(history: seq<Pair>)
    requires history != []
    ensures var n := |history| - 1;
            && (forall mac :: SeenMac(history, mac) <==> SeenMac(history[..n], mac) || mac == history[n].mac)
            && (forall ip :: SeenIp(history, ip) <==> SeenIp(history[..n], ip) || ip == history[n].ip)
  {
    var n := |history| - 1;
    assert forall i :: 0 <= i < n ==> history[..n][i] == history[i];
  }

  /** Each table knows exactly the addresses seen. */
  lemma {:induction false} KeysAreSeen(history: seq<Pair>)
    ensures forall mac :: mac in After(history).byMac <==> SeenMac(history, mac)
    ensures forall ip :: ip in After(history).byIp <==> SeenIp(history, ip)
  {
    if history != [] {
      KeysAreSeen(history[..|history| - 1]);
      SeenMore(history);
    }
  }

  /** Each table answers only pairs that were seen, so its values are keys of the other. */
  lemma {:induction false} AnswersWereSeen(history: seq<Pair>)
    ensures forall mac :: mac in After(history).byMac ==>
              Pair(mac, After(history).byMac[mac]) in history && After(history).byMac[mac] in After(history).byIp
    ensures forall ip :: ip in After(history).byIp ==>
              Pair(After(history).byIp[ip], ip) in history && After(history).byIp[ip] in After(history).byMac
  {
    if history != [] {
      var n := |history| - 1;
      AnswersWereSeen(history[..n]);
      assert forall p :: p in history <==> p in history[..n] || p == history[n];
      assert After(history) == Add(After(history[..n]), history[n]);
    }
  }

  /** A call that brings a new address is learnt both ways and changes no other answer;
      any other call changes nothing. */
  lemma NewsIsLearnt(history: seq<Pair>, p: Pair)
    ensures var t, u := After(history), After(history + [p]);
            if SeenMac(history, p.mac) && SeenIp(history, p.ip) then u == t
            else
              && Agree(u, p)
              && (forall mac :: mac != p.mac ==> (mac in u.byMac <==> mac in t.byMac))
              && (forall mac :: mac != p.mac && mac in t.byMac ==> u.byMac[mac] == t.byMac[mac])
              && (forall ip :: ip != p.ip ==> (ip in u.byIp <==> ip in t.byIp))
              && (forall ip :: ip != p.ip && ip in t.byIp ==> u.byIp[ip] == t.byIp[ip])
  {
    assert (history + [p])[..|history|] == history;
    KeysAreSeen(history);
  }

  /** Call `k` brings an address not seen before. */
  ghost predicate Brings(history: seq<Pair>, k: nat) {
    k < |history| && (!SeenMac(history[..k], history[k].mac) || !SeenIp(history[..k], history[k].ip))
  }

  lemma BringsBefore(history: seq<Pair>, k: nat)
    requires k < |history| - 1
    ensures Brings(history[..|history| - 1], k) <==> Brings(history, k)
  {
    assert history[..|history| - 1][..k] == history[..k];
  }

  /** The answer for a MAC is the IP of its last pair that brought a new address. */
  lemma {:induction false} MacAnswersLastNews(history: seq<Pair>, k: nat)
    requires Brings(history, k)
    requires forall j :: k < j < |history| && Brings(history, j) ==> history[j].mac != history[k].mac
    ensures history[k].mac in After(history).byMac
    ensures After(history).byMac[history[k].mac] == history[k].ip
    decreases |history|
  {
    var n := |history| - 1;
    KeysAreSeen(history[..n]);
    if k < n {
      forall j | k <= j < n
        ensures Brings(history[..n], j) <==> Brings(history, j)
      {
        BringsBefore(history, j);
      }
      MacAnswersLastNews(history[..n], k);
    }
  }

  /** The answer for an IP is the MAC of its last pair that brought a new address. */
  lemma {:induction false} IpAnswersLastNews(history: seq<Pair>, k: nat)
    requires Brings(history, k)
    requires forall j :: k < j < |history| && Brings(history, j) ==> history[j].ip != history[k].ip
    ensures history[k].ip in After(history).byIp
    ensures After(history).byIp[history[k].ip] == history[k].mac
    decreases |history|
  {
    var n := |history| - 1;
    KeysAreSeen(history[..n]);
    if k < n {
      forall j | k <= j < n
        ensures Brings(history[..n], j) <==> Brings(history, j)
      {
        BringsBefore(history, j);
      }
      IpAnswersLastNews(history[..n], k);
    }
  }

  /** The tables agree on a pair in both directions. */
  ghost predicate Agree(t: Tables, p: Pair) {
    && p.mac in t.byMac && t.byMac[p.mac] == p.ip
    && p.ip in t.byIp && t.byIp[p.ip] == p.mac
  }

  /** Whatever conflicts a history holds, its tables agree on at least one of its pairs. */
  lemma {:induction false} SomePairAgrees(history: seq<Pair>) returns (p: Pair)
    requires history != []
    ensures p in history && Agree(After(history), p)
  {
    var n := |history| - 1;
    var t, last := After(history[..n]), history[n];
    p := last;
    if n > 0 && last.mac in t.byMac && last.ip in t.byIp {
      p := SomePairAgrees(history[..n]);
    }
  }

  // ----- When the tables mirror each other -----

  ghost predicate Mirrored(t: Tables) {
    && (forall mac :: mac in t.byMac ==> Agree(t, Pair(mac, t.byMac[mac])))
    && (forall ip :: ip in t.byIp ==> Agree(t, Pair(t.byIp[ip], ip)))
  }

  /** Every call brings a MAC and an IP that are both new or both known. */
  ghost predicate Balanced(history: seq<Pair>) {
    forall k :: 0 <= k < |history| ==>
      (SeenMac(history[..k], history[k].mac) <==> SeenIp(history[..k], history[k].ip))
  }

  /** The tables are inverses of each other after every step of a history. */
  ghost predicate MirroredThroughout(history: seq<Pair>) {
    forall k :: 0 <= k <= |history| ==> Mirrored(After(history[..k]))
  }

  lemma ThroughoutMore(history: seq<Pair>)
    requires history != []
    ensures MirroredThroughout(history)
       <==> MirroredThroughout(history[..|history| - 1]) && Mirrored(After(history))
  {
    var before := history[..|history| - 1];
    assert forall k :: 0 <= k < |history| ==> before[..k] == history[..k];
    assert history[..|history|] == history;
  }

  lemma BalancedMore(history: seq<Pair>)
    requires history != []
    ensures var n := |history| - 1;
            Balanced(history) <==>
            Balanced(history[..n]) && (SeenMac(history[..n], history[n].mac) <==> SeenIp(history[..n], history[n].ip))
  {
    var before := history[..|history| - 1];
    assert forall k :: 0 <= k < |before| ==> before[..k] == history[..k] && before[k] == history[k];
  }

  /** The tables are inverses of each other after every step of a history exactly when
      no call brings one new and one known address. */
  lemma {:induction false} MirroredIffBalanced(history: seq<Pair>)
    ensures MirroredThroughout(history) <==> Balanced(history)
  {
    if history == [] {
      assert After(history[..0]) == EMPTY;
    } else {
      var n := |history| - 1;
      MirroredIffBalanced(history[..n]);
      KeysAreSeen(history[..n]);
      ThroughoutMore(history);
      BalancedMore(history);
      assert history[..n][..n] == history[..n];
      StepMirrors(After(history[..n]), history[n]);
    }
  }

  /** One call keeps mirrored tables mirrored exactly when both its addresses are new or
      both are known. */
  lemma StepMirrors(t: Tables, p: Pair)
    ensures Mirrored(t) ==> (Mirrored(Add(t, p)) <==> (p.mac in t.byMac <==> p.ip in t.byIp))
  {
    if Mirrored(t) {
      var u := Add(t, p);
      if p.mac in t.byMac && p.ip !in t.byIp {
        assert !Agree(u, Pair(u.byIp[t.byMac[p.mac]], t.byMac[p.mac]));
      } else if p.mac !in t.byMac && p.ip in t.byIp {
        assert !Agree(u, Pair(t.byIp[p.ip], u.byMac[t.byIp[p.ip]]));
      }
    }
  }

  /** Each MAC comes with one IP and each IP with one MAC. */
  ghost predicate NoConflict(history: seq<Pair>) {
    forall p, q :: p in history && q in history ==> (p.mac == q.mac <==> p.ip == q.ip)
  }

  /** Every pair ever added is still answered both ways exactly when no two conflict. */
  lemma AllAnsweredIffNoConflict(history: seq<Pair>)
    ensures (forall p :: p in history ==> Agree(After(history), p)) <==> NoConflict(history)
  {
    var t := After(history);
    KeysAreSeen(history);
    AnswersWereSeen(history);
    if NoConflict(history) {
      forall p | p in history
        ensures Agree(t, p)
      {
        var i :| 0 <= i < |history| && history[i] == p;
        assert SeenMac(history, p.mac) && SeenIp(history, p.ip);
      }
    }
  }

  /** A history without conflicts leaves the tables exact inverses. */
  lemma NoConflictMirrors(history: seq<Pair>)
    requires NoConflict(history)
    ensures Mirrored(After(history))
  {
    AllAnsweredIffNoConflict(history);
    KeysAreSeen(history);
    AnswersWereSeen(history);
  }

  /** A pair of two known addresses is ignored, so an IP that moves to the MAC of
      another container keeps its old answers. */
  lemma MovedAddressIsIgnored(a: Pair, b: Pair)
    requires a.mac != b.mac && a.ip != b.ip
    ensures After([a, b, Pair(a.mac, b.ip)]) == After([a, b])
    ensures Agree(After([a, b]), a) && Agree(After([a, b]), b)
  {
    var h := [a, b, Pair(a.mac, b.ip)];
    assert h[..2] == [a, b] && h[..2][..1] == [a] && h[..2][..1][..0] == [];
    assert After(h[..2][..1]) == Add(After([]), a);
    assert After(h[..2]) == Add(Add(EMPTY, a), b);
  }

  // ----- The table object -----

  class RoutingTable {
    var macTable: map<MacAddr, Ipv4Addr>
    var ipTable: map<Ipv4Addr, MacAddr>

    ghost function View(): Tables
      reads this
    {
      Tables(macTable, ipTable)
    }

    constructor ()
      ensures View() == EMPTY
    {
      macTable, ipTable := map[], map[];
    }

    method AddPair(mac: MacAddr, ip: Ipv4Addr)
      modifies this
      ensures View() == Add(old(View()), Pair(mac, ip))
    {
      var knownMac := ContainsMac(mac);
      var knownIp := false;
      if knownMac {
        knownIp := ContainsIp(ip);
      }
      if !knownMac || !knownIp {
        macTable := macTable[mac := ip];
        ipTable := ipTable[ip := mac];
      }
    }

    method ContainsMac(mac: MacAddr) returns (known: bool)
      ensures known <==> mac in View().byMac
    {
      known := mac in macTable;
    }

    method ContainsIp(ip: Ipv4Addr) returns (known: bool)
      ensures known <==> ip in View().byIp
    {
      known := ip in ipTable;
    }

    method GetMac(ip: Ipv4Addr) returns (mac: Option<MacAddr>)
      ensures mac == if ip in View().byIp then Some(View().byIp[ip]) else None
    {
      mac := if ip in ipTable then Some(ipTable[ip]) else None;
    }

    method GetIp(mac: MacAddr) returns (ip: Option<Ipv4Addr>)
      ensures ip == if mac in View().byMac then Some(View().byMac[mac]) else None
    {
      ip := if mac in macTable then Some(macTable[mac]) else None;
    }
  }
}
