/** Routing of polled packets and the scatter of one burst into buckets
    (src/fast/vhost_rx.c:24-61 and 150-287, src/fast/eth_rx.c:15-30 and 63-155). */
module Dispatch {
  import opened Arith
  import opened Topology

  datatype Header =
    | Ipv4(srcIp: nat, dstIp: nat, proto: nat, srcPort: nat, dstPort: nat)
    | Arp(request: bool, senderIp: nat, targetIp: nat)
    | Other

  /** A packet buffer: who polled it, its number, and the parsed header. */
  datatype Packet = Packet(source: nat, number: nat, header: Header)

  datatype Route = Slow | ToVm(vid: nat) | ToEth(queue: nat) | Unroutable

  /** What a flow is hashed by; ports are 0 for other protocols, everything is 0
      for frames that are neither IPv4 nor ARP. */
  datatype Flow = Flow(srcIp: nat, dstIp: nat, srcPort: nat, dstPort: nat, proto: nat)

  /** The address and route table the loop reads, the number of NIC queues, and
      the RSS hash of a flow. */
  datatype Env = Env(ip: nat, octets: seq<int>, queues: nat, hash: Flow -> nat)

  predicate EnvOk(env: Env) {
    |env.octets| == 256 && 0 < env.queues <= MAX_ETH_TX_QUEUES
  }

  function FlowOf(h: Header): Flow {
    match h
    case Ipv4(s, d, proto, sp, dp) =>
      if proto == IPPROTO_TCP || proto == IPPROTO_UDP then Flow(s, d, sp, dp, proto) else Flow(s, d, 0, 0, proto)
    case Arp(_, s, d) => Flow(s, d, 0, 0, 0)
    case Other => Flow(0, 0, 0, 0, 0)
  }

  predicate LocalSubnet(env: Env, ip: nat) {
    ip / 256 == env.ip / 256
  }

  function FindVid(env: Env, ip: nat): Route
    requires EnvOk(env)
  {
    var vid := env.octets[ip % 256];
    if 0 <= vid < MAX_VHOSTS then ToVm(vid) else Unroutable
  }

  predicate ForSwitch(env: Env, h: Header) {
    h.Arp? && h.request && h.targetIp == env.ip
  }

  /** vhost_rx.c:180-235. By header: the destination is that of the IPv4 header, the
      target of an ARP message and 0 for other frames; a packet that leaves the subnet
      goes to the queue its addresses, protocol and, for TCP and UDP, ports hash to. */
  function RouteFromVm(env: Env, p: Packet): (r: Route)
    requires EnvOk(env)
    ensures r == Slow <==> p.header.Arp? && p.header.request && p.header.targetIp == env.ip
    ensures r.ToVm? ==> r.vid < MAX_VHOSTS
    ensures r.ToEth? ==> r.queue < env.queues
    ensures p.header.Ipv4? ==>
      ByAddress(env, r, p.header.dstIp) && (r.ToEth? <==> p.header.dstIp / 256 != env.ip / 256)
    ensures p.header.Arp? && r != Slow ==>
      ByAddress(env, r, p.header.targetIp) && (r.ToEth? <==> p.header.targetIp / 256 != env.ip / 256)
    ensures p.header.Other? ==> ByAddress(env, r, 0) && (r.ToEth? <==> 0 != env.ip / 256)
    ensures r.ToEth? ==>
      r.queue == env.hash(match p.header
                          case Ipv4(src, dst, proto, srcPort, dstPort) =>
                            if proto == 6 || proto == 17 then Flow(src, dst, srcPort, dstPort, proto)
                            else Flow(src, dst, 0, 0, proto)
                          case Arp(_, sender, target) => Flow(sender, target, 0, 0, 0)
                          case Other => Flow(0, 0, 0, 0, 0)) % env.queues
  {
    var flow := FlowOf(p.header);
    if ForSwitch(env, p.header) then Slow
    else if LocalSubnet(env, flow.dstIp) then FindVid(env, flow.dstIp)
    else ToEth(env.hash(flow) % env.queues)
  }

  /** Within the subnet a route is what the last octet of the address says. */
  predicate ByAddress(env: Env, r: Route, ip: nat)
    requires EnvOk(env)
  {
    ip / 256 == env.ip / 256 ==>
      var vid := env.octets[ip % 256];
      if 0 <= vid < MAX_VHOSTS then r == ToVm(vid) else r == Unroutable
  }

  /** eth_rx.c:78-133: nothing goes back to the NIC, and a local address of value
      zero counts as not local. */
  function RouteFromNic(env: Env, p: Packet): (r: Route)
    requires EnvOk(env)
    ensures r == Slow <==> p.header.Arp? && p.header.request && p.header.targetIp == env.ip
    ensures r.ToVm? ==> r.vid < MAX_VHOSTS
    ensures !r.ToEth?
    ensures p.header.Ipv4? && p.header.dstIp > 0 ==> ByAddress(env, r, p.header.dstIp)
    ensures p.header.Ipv4? && (p.header.dstIp == 0 || p.header.dstIp / 256 != env.ip / 256) ==> r == Unroutable
    ensures p.header.Arp? && r != Slow && p.header.targetIp > 0 ==> ByAddress(env, r, p.header.targetIp)
    ensures p.header.Arp? && r != Slow && (p.header.targetIp == 0 || p.header.targetIp / 256 != env.ip / 256) ==>
      r == Unroutable
    ensures p.header.Other? ==> r == Unroutable
  {
    var dst := FlowOf(p.header).dstIp;
    if ForSwitch(env, p.header) then Slow
    else if LocalSubnet(env, dst) && dst != 0 then FindVid(env, dst)
    else Unroutable
  }

  // ----- Sub-bursts

  /** The packets of `s` with route `r`, in arrival order. */
  ghost function Routed(rt: Packet -> Route, s: seq<Packet>, r: Route): (t: seq<Packet>)
    ensures |t| <= |s|
  {
    if s == [] then []
    else Routed(rt, s[..|s| - 1], r) + if rt(s[|s| - 1]) == r then [s[|s| - 1]] else []
  }

  lemma RoutedSnoc(rt: Packet -> Route, s: seq<Packet>, p: Packet, r: Route)
    ensures Routed(rt, s + [p], r) == Routed(rt, s, r) + if rt(p) == r then [p] else []
  {
    assert (s + [p])[..|s|] == s;
  }

  /** The sub-bursts partition the burst: a packet occurs in the list of its own
      route as often as in the burst, and in no other list. */
  lemma {:induction false} Partition(rt: Packet -> Route, s: seq<Packet>, p: Packet, r: Route)
    ensures multiset(Routed(rt, s, r))[p] == if rt(p) == r then multiset(s)[p] else 0
    decreases |s|
  {
    if s != [] {
      var t, q := s[..|s| - 1], s[|s| - 1];
      Partition(rt, t, p, r);
      assert s == t + [q];
      assert multiset(s) == multiset(t) + multiset{q};
      if rt(q) == r {
        assert multiset(Routed(rt, s, r)) == multiset(Routed(rt, t, r)) + multiset{q};
      }
    }
  }

  ghost predicate InRange(rt: Packet -> Route, s: seq<Packet>, vms: nat, queues: nat) {
    forall p :: p in s ==> (rt(p).ToVm? ==> rt(p).vid < vms) && (rt(p).ToEth? ==> rt(p).queue < queues)
  }

  // ----- The seen mask, a machine word as a number

  /** mask | (1 << d) */
  function SetBit(mask: nat, d: nat): nat {
    if d == 0 then 2 * (mask / 2) + 1 else 2 * SetBit(mask / 2, d - 1) + mask % 2
  }

  /** Setting a bit changes that bit only. */
  lemma {:induction false} SetBitOnly(mask: nat, d: nat, e: nat)
    ensures Has(SetBit(mask, d), e) <==> d == e || Has(mask, e)
  {
    if d > 0 && e > 0 {
      SetBitOnly(mask / 2, d - 1, e - 1);
    }
  }

  /** The mask is a word of `k` bits. */
  ghost predicate Fits(mask: nat, k: nat) {
    if k == 0 then mask == 0 else Fits(mask / 2, k - 1)
  }

  lemma {:induction false} SetBitFits(mask: nat, d: nat, k: nat)
    requires Fits(mask, k) && d < k
    ensures Fits(SetBit(mask, d), k)
  {
    if d > 0 {
      SetBitFits(mask / 2, d - 1, k - 1);
    }
  }

  lemma {:induction false} EmptyMask(d: nat)
    ensures !Has(0, d) && Fits(0, d)
  {
    if d > 0 {
      EmptyMask(d - 1);
    }
  }

  // ----- Bucket arrays

  /** Rows of up to 64 packets with a counter each; the counters persist from one
      burst to the next. */
  class Rows {
    const pkts: array2<Packet>
    const cnt: array<nat>

    ghost predicate Valid()
      reads cnt
    {
      && pkts.Length0 == cnt.Length && pkts.Length1 == MAX_PKT_BURST
      && forall r :: 0 <= r < cnt.Length ==> cnt[r] <= MAX_PKT_BURST
    }

    ghost function Row(r: nat): (s: seq<Packet>)
      requires Valid() && r < cnt.Length
      reads pkts, cnt
      ensures |s| == cnt[r]
      ensures forall i :: 0 <= i < |s| ==> s[i] == pkts[r, i]
    {
      var n := cnt[r];
      seq(n, i requires 0 <= i < n <= pkts.Length1 && r < pkts.Length0 reads pkts => pkts[r, i])
    }

    ghost predicate Clean()
      reads pkts, cnt
    {
      Valid() && forall r :: 0 <= r < cnt.Length ==> Row(r) == []
    }

    constructor (rows: nat)
      ensures Clean() && cnt.Length == rows && fresh(pkts) && fresh(cnt)
    {
      pkts := new Packet[rows, MAX_PKT_BURST];
      cnt := new nat[rows](_ => 0);
    }

    method Put(r: nat, m: Packet)
      requires Valid() && r < cnt.Length && |Row(r)| < MAX_PKT_BURST
      modifies pkts, cnt
      ensures Valid() && Row(r) == old(Row(r)) + [m]
      ensures forall u :: 0 <= u < cnt.Length && u != r ==> Row(u) == old(Row(u))
    {
      pkts[r, cnt[r]] := m;
      cnt[r] := cnt[r] + 1;
      assert Row(r) == old(Row(r)) + [m];
      forall u | 0 <= u < cnt.Length && u != r
        ensures Row(u) == old(Row(u))
      {
      }
    }

    /** Enqueues what fits into a ring with `room` free places and resets the row. */
    method Flush(r: nat, room: nat) returns (sent: seq<Packet>, rest: seq<Packet>)
      requires Valid() && r < cnt.Length
      modifies cnt
      ensures Valid() && Row(r) == []
      ensures sent + rest == old(Row(r))
      ensures |sent| == (if room < |old(Row(r))| then room else |old(Row(r))|)
      ensures forall u :: 0 <= u < cnt.Length && u != r ==> Row(u) == old(Row(u))
    {
      var all := [];
      for i := 0 to cnt[r]
        invariant |all| == i && forall k :: 0 <= k < i ==> all[k] == pkts[r, k]
      {
        all := all + [pkts[r, i]];
      }
      assert all == Row(r);
      var enq := if room < cnt[r] then room else cnt[r];
      sent, rest := all[..enq], all[enq..];
      cnt[r] := 0;
      forall u | 0 <= u < cnt.Length && u != r
        ensures Row(u) == old(Row(u))
      {
      }
    }
  }
}
