/** The per-burst body shared by the two RX loops: scatter into buckets that
    persist across bursts, then flush every bucket (src/fast/vhost_rx.c:67-79 and
    150-287, src/fast/eth_rx.c:35-42 and 63-155). */
module RxLoop {
  import opened Arith
  import opened Finite
  import opened Topology
  import opened Dispatch

  /** Prefix that fits into `room` places, and what is left over. */
  ghost predicate Splits(all: seq<Packet>, room: nat, sent: seq<Packet>, rest: seq<Packet>) {
    sent + rest == all && |sent| == if room < |all| then room else |all|
  }

  /** A burst with its routing function, and the free places in each NIC queue's
      and each VM's ring when its bucket is flushed. */
  datatype Work = Work(burst: seq<Packet>, rt: Packet -> Route, queues: nat, qRoom: seq<nat>, vRoom: seq<nat>)

  ghost predicate WorkOk(w: Work) {
    && |w.burst| <= MAX_PKT_BURST && w.queues <= MAX_ETH_TX_QUEUES
    && InRange(w.rt, w.burst, MAX_VHOSTS, w.queues)
    && |w.qRoom| == w.queues && |w.vRoom| == MAX_VHOSTS
  }

  /** Where the packets went: slow path; per NIC queue sent and freed; per VM sent
      and lost to a full ring. */
  datatype Outcome = Outcome(slow: seq<Packet>, qSent: seq<seq<Packet>>, qFreed: seq<seq<Packet>>,
                             vSent: seq<seq<Packet>>, vLost: seq<seq<Packet>>)

  /** Each destination gets the arrival-ordered packets routed to it, as many as
      its ring has room for. */
  ghost predicate Dispatched(w: Work, o: Outcome) {
    && o.slow == Routed(w.rt, w.burst, Slow)
    && |o.qSent| == |o.qFreed| == w.queues == |w.qRoom| && |o.vSent| == |o.vLost| == MAX_VHOSTS == |w.vRoom|
    && (forall q :: 0 <= q < w.queues ==>
          Splits(Routed(w.rt, w.burst, ToEth(q)), w.qRoom[q], o.qSent[q], o.qFreed[q]))
    && (forall d :: 0 <= d < MAX_VHOSTS ==>
          Splits(Routed(w.rt, w.burst, ToVm(d)), w.vRoom[d], o.vSent[d], o.vLost[d]))
  }

  class RxCore {
    const vm: Rows
    const eth: Rows
    const dstVids: array<nat>

    ghost predicate Valid()
      reads vm.cnt, eth.cnt
    {
      && vm.pkts != eth.pkts && vm.cnt != eth.cnt && vm.cnt != dstVids && eth.cnt != dstVids
      && vm.cnt.Length == MAX_VHOSTS && eth.cnt.Length == MAX_ETH_TX_QUEUES && dstVids.Length == MAX_VHOSTS
      && vm.Valid() && eth.Valid()
    }

    /** All counters are zero: the state between bursts. */
    ghost predicate Clean()
      reads vm.pkts, eth.pkts, vm.cnt, eth.cnt
    {
      Valid() && vm.Clean() && eth.Clean()
    }

    constructor ()
      ensures Clean()
    {
      vm := new Rows(MAX_VHOSTS);
      eth := new Rows(MAX_ETH_TX_QUEUES);
      dstVids := new nat[MAX_VHOSTS];
    }

    /** The buckets hold exactly the routed sub-bursts of `s`. */
    ghost predicate Holds(rt: Packet -> Route, s: seq<Packet>)
      requires Valid()
      reads vm.pkts, eth.pkts, vm.cnt, eth.cnt
    {
      && (forall d :: 0 <= d < MAX_VHOSTS ==> vm.Row(d) == Routed(rt, s, ToVm(d)))
      && (forall q :: 0 <= q < MAX_ETH_TX_QUEUES ==> eth.Row(q) == Routed(rt, s, ToEth(q)))
    }

    /** The first `n` entries of dstVids are the VMs with a packet, each once. */
    ghost predicate Lists(n: nat)
      requires Valid()
      reads vm.pkts, vm.cnt, eth.cnt, dstVids
    {
      && n <= MAX_VHOSTS && NoDup(dstVids[..n])
      && forall d: nat :: d in dstVids[..n] <==> d < MAX_VHOSTS && vm.Row(d) != []
    }

    /** The mask is a 64-bit word with a bit for each VM that has a packet. */
    ghost predicate Masks(mask: nat)
      requires Valid()
      reads vm.pkts, vm.cnt, eth.cnt
    {
      && Fits(mask, MAX_VHOSTS)
      && forall d :: 0 <= d < MAX_VHOSTS ==> (Has(mask, d) <==> vm.Row(d) != [])
    }

    lemma NothingMasked(mask: nat)
      requires Clean() && mask == 0
      ensures Masks(mask)
    {
      forall d: nat | d <= MAX_VHOSTS
        ensures !Has(mask, d) && Fits(mask, d)
      {
        EmptyMask(d);
      }
    }

    /** One packet for a VM (vhost_rx.c:209-218, eth_rx.c:123-132). The branch for
        a full destination list is never entered. */
    method PutVm(d: nat, m: Packet, mask: nat, n: nat) returns (mask': nat, n': nat)
      requires Valid() && Lists(n) && Masks(mask) && d < MAX_VHOSTS && |vm.Row(d)| < MAX_PKT_BURST
      modifies vm.pkts, vm.cnt, dstVids
      ensures Valid() && Lists(n') && Masks(mask')
      ensures vm.Row(d) == old(vm.Row(d)) + [m]
      ensures forall u :: 0 <= u < MAX_VHOSTS && u != d ==> vm.Row(u) == old(vm.Row(u))
      ensures forall q :: 0 <= q < MAX_ETH_TX_QUEUES ==> eth.Row(q) == old(eth.Row(q))
    {
      mask', n' := mask, n;
      vm.Put(d, m);
      assert forall u :: 0 <= u < MAX_VHOSTS && u != d ==> (vm.Row(u) != [] <==> old(vm.Row(u)) != []);
      if Has(mask, d) {
        return;
      }
      mask' := SetBit(mask, d);
      SetBitFits(mask, d, MAX_VHOSTS);
      forall e | 0 <= e < MAX_VHOSTS
        ensures Has(mask', e) <==> vm.Row(e) != []
      {
        SetBitOnly(mask, d, e);
      }
      assert d !in dstVids[..n];
      NoDupBound(dstVids[..n], MAX_VHOSTS, d);
      if n >= MAX_VHOSTS {
        assert false;
      }
      ghost var listed := dstVids[..n];
      dstVids[n] := d;
      n' := n + 1;
      assert dstVids[..n'] == listed + [d];
    }

    /** One packet for a NIC queue (vhost_rx.c:235). */
    method PutEth(q: nat, m: Packet, ghost mask: nat, ghost n: nat)
      requires Valid() && Lists(n) && Masks(mask) && q < MAX_ETH_TX_QUEUES && |eth.Row(q)| < MAX_PKT_BURST
      modifies eth.pkts, eth.cnt
      ensures Valid() && Lists(n) && Masks(mask)
      ensures eth.Row(q) == old(eth.Row(q)) + [m]
      ensures forall u :: 0 <= u < MAX_ETH_TX_QUEUES && u != q ==> eth.Row(u) == old(eth.Row(u))
      ensures forall d :: 0 <= d < MAX_VHOSTS ==> vm.Row(d) == old(vm.Row(d))
    {
      eth.Put(q, m);
      assert forall d :: 0 <= d < MAX_VHOSTS ==> vm.Row(d) == old(vm.Row(d));
    }

    /** The body of the scatter loop, for a packet with route `r`. */
    method PutOne(m: Packet, r: Route, slow: seq<Packet>, n: nat, mask: nat,
                  ghost rt: Packet -> Route, ghost done: seq<Packet>)
      returns (slow': seq<Packet>, n': nat, mask': nat)
      requires Valid() && Holds(rt, done) && Lists(n) && Masks(mask) && slow == Routed(rt, done, Slow)
      requires |done| < MAX_PKT_BURST && r == rt(m)
      requires (r.ToVm? ==> r.vid < MAX_VHOSTS) && (r.ToEth? ==> r.queue < MAX_ETH_TX_QUEUES)
      modifies vm.pkts, eth.pkts, vm.cnt, eth.cnt, dstVids
      ensures Valid() && Holds(rt, done + [m]) && Lists(n') && Masks(mask')
      ensures slow' == Routed(rt, done + [m], Slow)
    {
      slow', n', mask' := slow, n, mask;
      assert |Routed(rt, done, r)| < MAX_PKT_BURST;
      match r {
        case Slow => slow' := slow + [m];
        case Unroutable =>
        case ToVm(d) => mask', n' := PutVm(d, m, mask, n);
        case ToEth(q) => PutEth(q, m, mask, n);
      }
      RoutedSnoc(rt, done, m, Slow);
      forall d | 0 <= d < MAX_VHOSTS
        ensures vm.Row(d) == Routed(rt, done + [m], ToVm(d))
      {
        RoutedSnoc(rt, done, m, ToVm(d));
      }
      forall q | 0 <= q < MAX_ETH_TX_QUEUES
        ensures eth.Row(q) == Routed(rt, done + [m], ToEth(q))
      {
        RoutedSnoc(rt, done, m, ToEth(q));
      }
    }

    /** The scatter loop over one burst. */
    method Scatter(burst: seq<Packet>, rt: Packet -> Route) returns (slow: seq<Packet>, n: nat, mask: nat)
      requires Clean() && |burst| <= MAX_PKT_BURST
      requires InRange(rt, burst, MAX_VHOSTS, MAX_ETH_TX_QUEUES)
      modifies vm.pkts, eth.pkts, vm.cnt, eth.cnt, dstVids
      ensures Valid() && Holds(rt, burst) && Lists(n) && Masks(mask)
      ensures slow == Routed(rt, burst, Slow)
    {
      slow, n, mask := [], 0, 0;
      NothingMasked(mask);
      for j := 0 to |burst|
        invariant Valid() && Holds(rt, burst[..j]) && Lists(n) && Masks(mask)
        invariant slow == Routed(rt, burst[..j], Slow)
      {
        assert burst[j] in burst;
        slow, n, mask := PutOne(burst[j], rt(burst[j]), slow, n, mask, rt, burst[..j]);
        assert burst[..j + 1] == burst[..j] + [burst[j]];
      }
      assert burst[..|burst|] == burst;
    }

    /** vhost_rx.c:239-259: what does not fit into a NIC queue's ring is freed. */
    method FlushQueues(queues: nat, room: seq<nat>) returns (sent: seq<seq<Packet>>, freed: seq<seq<Packet>>)
      requires Valid() && queues <= MAX_ETH_TX_QUEUES && |room| == queues
      requires forall q :: queues <= q < MAX_ETH_TX_QUEUES ==> eth.Row(q) == []
      modifies eth.cnt
      ensures Valid() && eth.Clean()
      ensures forall d :: 0 <= d < MAX_VHOSTS ==> vm.Row(d) == old(vm.Row(d))
      ensures |sent| == |freed| == queues
      ensures forall q :: 0 <= q < queues ==> Splits(old(eth.Row(q)), room[q], sent[q], freed[q])
    {
      sent, freed := [], [];
      for j := 0 to queues
        invariant Valid() && |sent| == |freed| == j
        invariant forall d :: 0 <= d < MAX_VHOSTS ==> vm.Row(d) == old(vm.Row(d))
        invariant forall q :: 0 <= q < j ==> eth.Row(q) == []
        invariant forall q :: j <= q < MAX_ETH_TX_QUEUES ==> eth.Row(q) == old(eth.Row(q))
        invariant forall q :: 0 <= q < j ==> Splits(old(eth.Row(q)), room[q], sent[q], freed[q])
      {
        var s, f := [], [];
        if eth.cnt[j] != 0 {
          s, f := eth.Flush(j, room[j]);
        }
        sent, freed := sent + [s], freed + [f];
      }
    }

    /** vhost_rx.c:261-278, eth_rx.c:136-147: the listed VMs' buckets; the overflow
        of a VM ring is only counted. The early exit on an empty bucket is never
        taken, so every bucket is flushed. */
    method FlushVms(n: nat, room: seq<nat>) returns (sent: seq<seq<Packet>>, lost: seq<seq<Packet>>)
      requires Valid() && Lists(n) && |room| == MAX_VHOSTS
      modifies vm.cnt
      ensures Valid() && vm.Clean()
      ensures forall q :: 0 <= q < MAX_ETH_TX_QUEUES ==> eth.Row(q) == old(eth.Row(q))
      ensures |sent| == |lost| == MAX_VHOSTS
      ensures forall d :: 0 <= d < MAX_VHOSTS ==> Splits(old(vm.Row(d)), room[d], sent[d], lost[d])
    {
      sent, lost := seq(MAX_VHOSTS, _ => []), seq(MAX_VHOSTS, _ => []);
      for j := 0 to n
        invariant Valid() && |sent| == |lost| == MAX_VHOSTS
        invariant forall q :: 0 <= q < MAX_ETH_TX_QUEUES ==> eth.Row(q) == old(eth.Row(q))
        invariant forall d :: 0 <= d < MAX_VHOSTS && d in dstVids[..j] ==>
          vm.Row(d) == [] && Splits(old(vm.Row(d)), room[d], sent[d], lost[d])
        invariant forall d :: 0 <= d < MAX_VHOSTS && d !in dstVids[..j] ==>
          vm.Row(d) == old(vm.Row(d)) && sent[d] == lost[d] == []
      {
        var d := dstVids[j];
        assert d in dstVids[..n] && d !in dstVids[..j];
        if vm.cnt[d] == 0 {
          assert false;
        }
        var s, l := vm.Flush(d, room[d]);
        sent, lost := sent[d := s], lost[d := l];
        assert dstVids[..j + 1] == dstVids[..j] + [d];
      }
    }

    /** A whole burst: every packet leaves the core in exactly one place, and the
        buckets are clean again. */
    method Process(w: Work) returns (o: Outcome)
      requires Clean() && WorkOk(w)
      modifies vm.pkts, eth.pkts, vm.cnt, eth.cnt, dstVids
      ensures Clean() && Dispatched(w, o)
    {
      var slow, n, mask := Scatter(w.burst, w.rt);
      forall q | w.queues <= q < MAX_ETH_TX_QUEUES
        ensures eth.Row(q) == []
      {
        NothingRouted(w.rt, w.burst, ToEth(q));
      }
      var qSent, qFreed := FlushQueues(w.queues, w.qRoom);
      assert forall d :: 0 <= d < MAX_VHOSTS ==> vm.Row(d) == Routed(w.rt, w.burst, ToVm(d));
      var vSent, vLost := FlushVms(n, w.vRoom);
      o := Outcome(slow, qSent, qFreed, vSent, vLost);
    }

    /** Any number of bursts in a row, each from the clean state the last one left. */
    method ProcessAll(ws: seq<Work>) returns (os: seq<Outcome>)
      requires Clean() && forall i :: 0 <= i < |ws| ==> WorkOk(ws[i])
      modifies vm.pkts, eth.pkts, vm.cnt, eth.cnt, dstVids
      ensures Clean() && |os| == |ws|
      ensures forall i :: 0 <= i < |ws| ==> Dispatched(ws[i], os[i])
    {
      os := [];
      for i := 0 to |ws|
        invariant Clean() && |os| == i
        invariant forall k :: 0 <= k < i ==> Dispatched(ws[k], os[k])
      {
        var o := Process(ws[i]);
        os := os + [o];
      }
    }

    /** vhost_rx.c: a burst polled from a VM whose address is known. */
    method FromVm(burst: seq<Packet>, env: Env, qRoom: seq<nat>, vRoom: seq<nat>) returns (o: Outcome)
      requires Clean() && EnvOk(env) && |burst| <= MAX_PKT_BURST
      requires |qRoom| == env.queues && |vRoom| == MAX_VHOSTS
      modifies vm.pkts, eth.pkts, vm.cnt, eth.cnt, dstVids
      ensures Clean()
      ensures Dispatched(Work(burst, p => RouteFromVm(env, p), env.queues, qRoom, vRoom), o)
    {
      o := Process(Work(burst, p => RouteFromVm(env, p), env.queues, qRoom, vRoom));
    }

    /** eth_rx.c: a burst polled from the NIC; it never goes back to the NIC. */
    method FromNic(burst: seq<Packet>, env: Env, vRoom: seq<nat>) returns (o: Outcome)
      requires Clean() && EnvOk(env) && |burst| <= MAX_PKT_BURST && |vRoom| == MAX_VHOSTS
      modifies vm.pkts, eth.pkts, vm.cnt, eth.cnt, dstVids
      ensures Clean()
      ensures Dispatched(Work(burst, p => RouteFromNic(env, p), 0, [], vRoom), o)
    {
      o := Process(Work(burst, p => RouteFromNic(env, p), 0, [], vRoom));
    }
  }

  lemma {:induction false} NothingRouted(rt: Packet -> Route, s: seq<Packet>, r: Route)
    requires forall p :: p in s ==> rt(p) != r
    ensures Routed(rt, s, r) == []
    decreases |s|
  {
    if s != [] {
      NothingRouted(rt, s[..|s| - 1], r);
    }
  }
}
