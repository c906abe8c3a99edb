/** Forwarding to the NIC: header rewrite, offload flags, partial send, requeue
    (src/fast/eth_tx.c, src/include/fastpath.h:76-125, src/dataplane.c:74-79). */
module EthTx {
  import opened Arith
  import opened Topology

  // ----- Header rewrite and offload fields

  /** A 48-bit station address as a number; the group bit is bit 40. */
  type Mac = nat

  const BROADCAST: Mac := 0xFFFF_FFFF_FFFF

  predicate IsMulticast(m: Mac) { m / 0x100_0000_0000 % 2 == 1 }

  /** Offload flags as sets of bit numbers in the 64-bit flag word. */
  const TX_TCP_SEG: set<nat> := {50}
  const TX_TCP_CKSUM: set<nat> := {52}
  const TX_UDP_CKSUM: set<nat> := {52, 53}
  const TX_IP_CKSUM: set<nat> := {54}
  const TX_IPV4: set<nat> := {55}

  const ETHER_HDR: nat := 14
  const PKT_MTU: int := 9000

  /** The header fields the NIC path reads; `l4Words` is the TCP data offset. */
  datatype Payload = Ipv4(ihl: nat, proto: nat, l4Words: nat) | NotIpv4

  datatype Mbuf = Mbuf(id: nat, src: Mac, dst: Mac, payload: Payload, segs: nat,
                       flags: set<nat>, l2: nat, l3: nat, l4: nat, tsoSize: int)

  datatype Config = Config(mac: Mac, otherMac: Mac, nicMac: Mac)

  /** eth_tx.c:40-51 */
  function Rewrite(cfg: Config, m: Mbuf): Mbuf {
    var m1 := m.(src := cfg.nicMac);
    if m.dst == BROADCAST || IsMulticast(m.dst) then m1
    else if m.dst == cfg.mac then m1.(dst := cfg.otherMac)
    else m1
  }

  /** fastpath.h:79-123 for one packet. */
  function Offload(m: Mbuf): Mbuf {
    match m.payload
    case NotIpv4 => m.(flags := {})
    case Ipv4(ihl, proto, words) =>
      var m1 := m.(l2 := ETHER_HDR, l3 := ihl * 4);
      if proto == IPPROTO_TCP then
        var f := m.flags + TX_IPV4 + TX_TCP_CKSUM + TX_IP_CKSUM;
        if m.segs > 1 then
          m1.(flags := f + TX_TCP_SEG, l4 := words * 4, tsoSize := PKT_MTU - ihl * 4 - words * 4)
        else
          m1.(flags := f - TX_TCP_SEG, l4 := words * 4, tsoSize := 0)
      else if proto == IPPROTO_UDP then
        m1.(flags := m.flags + TX_IPV4 + TX_IP_CKSUM + TX_UDP_CKSUM)
      else
        m1.(flags := m.flags + TX_IPV4 + TX_IP_CKSUM)
  }

  function Prepare(cfg: Config, m: Mbuf): Mbuf { Offload(Rewrite(cfg, m)) }

  /** What leaves for the NIC: sent from the NIC's address, to the other node where it
      was addressed to the switch; with the checksum offloads of its protocol, header
      lengths for IPv4, and segmentation for TCP packets of several buffers only. */
  lemma PrepareMeaning(cfg: Config, m: Mbuf)
    ensures var r := Prepare(cfg, m);
      && r.id == m.id && r.payload == m.payload && r.segs == m.segs
      && r.src == cfg.nicMac
      && r.dst == (if m.dst / 0x100_0000_0000 % 2 == 0 && m.dst == cfg.mac then cfg.otherMac else m.dst)
      && (m.payload.NotIpv4? ==>
            r.flags == {} && r.l2 == m.l2 && r.l3 == m.l3 && r.l4 == m.l4 && r.tsoSize == m.tsoSize)
      && (m.payload.Ipv4? ==>
            var l3 := m.payload.ihl * 4;
            && r.l2 == 14 && r.l3 == l3
            && (m.payload.proto == 6 ==>
                  var l4 := m.payload.l4Words * 4;
                  && r.l4 == l4
                  && r.flags == m.flags - {50} + {52, 54, 55} + (if m.segs > 1 then {50} else {})
                  && r.tsoSize == (if m.segs > 1 then 9000 - l3 - l4 else 0))
            && (m.payload.proto != 6 ==>
                  && r.l4 == m.l4 && r.tsoSize == m.tsoSize
                  && r.flags == m.flags + (if m.payload.proto == 17 then {52, 53, 54, 55} else {54, 55})))
  {
    var r := Prepare(cfg, m);
    if m.payload.Ipv4? && m.payload.proto == 6 {
      assert r.flags == m.flags - {50} + {52, 54, 55} + (if m.segs > 1 then {50} else {});
    } else if m.payload.Ipv4? {
      assert r.flags == m.flags + (if m.payload.proto == 17 then {52, 53, 54, 55} else {54, 55});
    }
  }

  function PrepareTimes(cfg: Config, m: Mbuf, n: nat): Mbuf {
    if n == 0 then m else Prepare(cfg, PrepareTimes(cfg, m, n - 1))
  }

  lemma OffloadIdempotent(m: Mbuf)
    ensures Offload(Offload(m)) == Offload(m)
  {
    assert Offload(Offload(m)).flags == Offload(m).flags;
  }

  /** A second pass over a prepared packet changes nothing, whatever the
      configured addresses are. */
  lemma PrepareIdempotent(cfg: Config, m: Mbuf)
    ensures Prepare(cfg, Prepare(cfg, m)) == Prepare(cfg, m)
  {
    var r := Rewrite(cfg, m);
    assert Rewrite(cfg, Offload(r)) == Offload(Rewrite(cfg, r));
    assert Rewrite(cfg, r) == r;
    OffloadIdempotent(r);
  }

  /** A packet that is requeued any number of times carries the same header and
      offload fields as after its first pass. */
  lemma {:induction false} RequeueHarmless(cfg: Config, m: Mbuf, n: nat)
    requires n > 0
    ensures PrepareTimes(cfg, m, n) == Prepare(cfg, m)
  {
    if n > 1 {
      RequeueHarmless(cfg, m, n - 1);
      PrepareIdempotent(cfg, m);
    } else {
      assert PrepareTimes(cfg, m, 0) == m;
    }
  }

  // ----- One queue's ring over a run

  /** A ring entry: the packet as first enqueued and how often it was prepared. */
  datatype Entry = Entry(orig: Mbuf, passes: nat)

  function Current(cfg: Config, e: Entry): Mbuf { PrepareTimes(cfg, e.orig, e.passes) }

  /** The ring, and the originals of everything that arrived, left, was freed;
      `wire` is what the NIC was given. */
  datatype Queue = Queue(ring: seq<Entry>, arrived: multiset<Mbuf>, sent: multiset<Mbuf>, freed: multiset<Mbuf>,
                         wire: seq<(Mbuf, Mbuf)>)

  /** A turn: the NIC takes `accept` packets of the burst (or fails), the ring
      takes back `back` of the rest. */
  datatype Event = Arrive(pkts: seq<Mbuf>) | Turn(accept: int, back: nat)

  function BurstSize(n: nat): nat { if n <= MAX_PKT_BURST then n else MAX_PKT_BURST }

  function Accepted(accept: int): nat { if accept < 0 then 0 else accept }

  predicate Enabled(q: Queue, e: Event) {
    e.Turn? ==> Accepted(e.accept) + e.back <= BurstSize(|q.ring|)
  }

  function Fresh(pkts: seq<Mbuf>): seq<Entry> {
    seq(|pkts|, i requires 0 <= i < |pkts| => Entry(pkts[i], 0))
  }

  function Passed(es: seq<Entry>): seq<Entry> {
    seq(|es|, i requires 0 <= i < |es| => es[i].(passes := es[i].passes + 1))
  }

  function Originals(es: seq<Entry>): seq<Mbuf> {
    seq(|es|, i requires 0 <= i < |es| => es[i].orig)
  }

  function OnWire(cfg: Config, es: seq<Entry>): seq<(Mbuf, Mbuf)> {
    seq(|es|, i requires 0 <= i < |es| => (es[i].orig, Current(cfg, es[i])))
  }

  function Step(cfg: Config, q: Queue, e: Event): Queue
    requires Enabled(q, e)
  {
    match e
    case Arrive(pkts) => q.(ring := q.ring + Fresh(pkts), arrived := q.arrived + multiset(pkts))
    case Turn(accept, back) =>
      var k := BurstSize(|q.ring|);
      var burst := Passed(q.ring[..k]);
      var n := Accepted(accept);
      Queue(q.ring[k..] + burst[n..n + back],
            q.arrived,
            q.sent + multiset(Originals(burst[..n])),
            q.freed + multiset(Originals(burst[n + back..])),
            q.wire + OnWire(cfg, burst[..n]))
  }

  /** Preparing a burst does not change which packets a part of it holds. */
  lemma SliceOriginals(es: seq<Entry>, k: nat, a: nat, b: nat)
    requires a <= b <= k <= |es|
    ensures Originals(Passed(es[..k])[a..b]) == Originals(es[a..b])
  {
    forall i | 0 <= i < b - a
      ensures Originals(Passed(es[..k])[a..b])[i] == Originals(es[a..b])[i]
    {
      assert Passed(es[..k])[a..b][i] == Passed(es[..k])[a + i];
    }
  }

  lemma TailOriginals(es: seq<Entry>, k: nat, a: nat)
    requires a <= k <= |es|
    ensures Originals(Passed(es[..k])[a..]) == Originals(es[a..k])
  {
    var burst := Passed(es[..k]);
    assert burst[a..] == burst[a..k];
    SliceOriginals(es, k, a, k);
  }

  lemma TurnSent(cfg: Config, q: Queue, accept: int, back: nat, n: nat)
    requires Enabled(q, Turn(accept, back)) && n == Accepted(accept)
    ensures Step(cfg, q, Turn(accept, back)).sent == q.sent + multiset(Originals(q.ring[..n]))
  {
    var k := BurstSize(|q.ring|);
    var burst := Passed(q.ring[..k]);
    assert burst[..n] == burst[0..n] && q.ring[..n] == q.ring[0..n];
    SliceOriginals(q.ring, k, 0, n);
  }

  lemma TurnFreed(cfg: Config, q: Queue, accept: int, back: nat, n: nat, k: nat)
    requires Enabled(q, Turn(accept, back)) && n == Accepted(accept) && k == BurstSize(|q.ring|)
    ensures Step(cfg, q, Turn(accept, back)).freed == q.freed + multiset(Originals(q.ring[n + back..k]))
  {
    TailOriginals(q.ring, k, n + back);
  }

  lemma TurnRing(cfg: Config, q: Queue, accept: int, back: nat, n: nat, k: nat)
    requires Enabled(q, Turn(accept, back)) && n == Accepted(accept) && k == BurstSize(|q.ring|)
    ensures Originals(Step(cfg, q, Turn(accept, back)).ring)
         == Originals(q.ring[k..]) + Originals(q.ring[n..n + back])
  {
    SliceOriginals(q.ring, k, n, n + back);
    OriginalsConcat(q.ring[k..], Passed(q.ring[..k])[n..n + back]);
  }

  /** One turn on the first 64 entries of the ring: the first `n` are sent, the next
      `back` go to the ring's tail, the others are freed. */
  lemma TurnMeaning(cfg: Config, q: Queue, accept: int, back: nat)
    requires Enabled(q, Turn(accept, back))
    ensures var q' := Step(cfg, q, Turn(accept, back));
      var k := if |q.ring| < 64 then |q.ring| else 64;
      var n: nat := if accept > 0 then accept else 0;
      && n + back <= k && q'.arrived == q.arrived
      && q'.sent == q.sent + multiset(Originals(q.ring[..n]))
      && q'.freed == q.freed + multiset(Originals(q.ring[n + back..k]))
      && Originals(q'.ring) == Originals(q.ring[k..]) + Originals(q.ring[n..n + back])
  {
    var k, n := BurstSize(|q.ring|), Accepted(accept);
    TurnSent(cfg, q, accept, back, n);
    TurnFreed(cfg, q, accept, back, n, k);
    TurnRing(cfg, q, accept, back, n, k);
  }

  /** What a turn puts on the wire: its first `n` entries, each after one more pass. */
  lemma TurnWireMeaning(cfg: Config, q: Queue, accept: int, back: nat)
    requires Enabled(q, Turn(accept, back))
    ensures var q' := Step(cfg, q, Turn(accept, back));
      var n: nat := if accept > 0 then accept else 0;
      && n <= |q.ring| && |q'.wire| == |q.wire| + n && q'.wire[..|q.wire|] == q.wire
      && forall i :: 0 <= i < n ==>
           q'.wire[|q.wire| + i] == (q.ring[i].orig, Prepare(cfg, Current(cfg, q.ring[i])))
  {
    var n := Accepted(accept);
    PassedPrefix(q.ring, BurstSize(|q.ring|), n);
    var more := OnWire(cfg, Passed(q.ring[..n]));
    assert Step(cfg, q, Turn(accept, back)).wire == q.wire + more;
    forall i | 0 <= i < n
      ensures more[i] == (q.ring[i].orig, Prepare(cfg, Current(cfg, q.ring[i])))
    {
    }
  }

  ghost predicate Conserved(cfg: Config, q: Queue) {
    && q.arrived == multiset(Originals(q.ring)) + q.sent + q.freed
    && WireOk(cfg, q.wire)
  }

  /** Every packet given to the NIC looks as after one pass. */
  ghost predicate WireOk(cfg: Config, wire: seq<(Mbuf, Mbuf)>) {
    forall i :: 0 <= i < |wire| ==> wire[i].1 == Prepare(cfg, wire[i].0)
  }

  lemma OriginalsConcat(a: seq<Entry>, b: seq<Entry>)
    ensures Originals(a + b) == Originals(a) + Originals(b)
    ensures multiset(Originals(a + b)) == multiset(Originals(a)) + multiset(Originals(b))
  {
    assert Originals(a + b) == Originals(a) + Originals(b);
  }

  /** The burst is split into what was sent, requeued and freed. */
  lemma TurnSplits(ring: seq<Entry>, n: nat, back: nat)
    requires n + back <= BurstSize(|ring|)
    ensures var k := BurstSize(|ring|);
      var burst := Passed(ring[..k]);
      multiset(Originals(ring)) == multiset(Originals(ring[k..] + burst[n..n + back]))
                                 + multiset(Originals(burst[..n])) + multiset(Originals(burst[n + back..]))
  {
    var k := BurstSize(|ring|);
    var burst := Passed(ring[..k]);
    assert Originals(burst) == Originals(ring[..k]);
    assert ring == ring[..k] + ring[k..];
    OriginalsConcat(ring[..k], ring[k..]);
    assert burst == burst[..n] + (burst[n..n + back] + burst[n + back..]);
    OriginalsConcat(burst[..n], burst[n..n + back] + burst[n + back..]);
    OriginalsConcat(burst[n..n + back], burst[n + back..]);
    OriginalsConcat(ring[k..], burst[n..n + back]);
  }

  lemma ArriveKeeps(cfg: Config, q: Queue, pkts: seq<Mbuf>)
    requires Conserved(cfg, q)
    ensures Conserved(cfg, Step(cfg, q, Arrive(pkts)))
  {
    OriginalsConcat(q.ring, Fresh(pkts));
    assert Originals(Fresh(pkts)) == pkts;
  }

  lemma Rebalance(arrived: multiset<Mbuf>, before: multiset<Mbuf>, sent: multiset<Mbuf>, freed: multiset<Mbuf>,
                  after: multiset<Mbuf>, s: multiset<Mbuf>, f: multiset<Mbuf>)
    requires arrived == before + sent + freed && before == after + s + f
    ensures arrived == after + (sent + s) + (freed + f)
  {
    forall m: Mbuf
      ensures arrived[m] == (after + (sent + s) + (freed + f))[m]
    {
    }
  }

  lemma WirePrepared(cfg: Config, es: seq<Entry>)
    ensures WireOk(cfg, OnWire(cfg, Passed(es)))
  {
    forall i | 0 <= i < |es|
      ensures OnWire(cfg, Passed(es))[i].1 == Prepare(cfg, OnWire(cfg, Passed(es))[i].0)
    {
      RequeueHarmless(cfg, es[i].orig, es[i].passes + 1);
    }
  }

  lemma WireConcat(cfg: Config, a: seq<(Mbuf, Mbuf)>, b: seq<(Mbuf, Mbuf)>)
    requires WireOk(cfg, a) && WireOk(cfg, b)
    ensures WireOk(cfg, a + b)
  {
  }

  lemma TurnConserves(cfg: Config, q: Queue, accept: int, back: nat)
    requires Conserved(cfg, q) && Enabled(q, Turn(accept, back))
    ensures var q' := Step(cfg, q, Turn(accept, back));
      q'.arrived == multiset(Originals(q'.ring)) + q'.sent + q'.freed
  {
    var n := Accepted(accept);
    var k := BurstSize(|q.ring|);
    var burst := Passed(q.ring[..k]);
    TurnSplits(q.ring, n, back);
    Rebalance(q.arrived, multiset(Originals(q.ring)), q.sent, q.freed,
              multiset(Originals(q.ring[k..] + burst[n..n + back])),
              multiset(Originals(burst[..n])), multiset(Originals(burst[n + back..])));
  }

  lemma PassedPrefix(es: seq<Entry>, k: nat, n: nat)
    requires n <= k <= |es|
    ensures Passed(es[..k])[..n] == Passed(es[..n])
  {
  }

  lemma TurnWire(cfg: Config, q: Queue, accept: int, back: nat)
    requires WireOk(cfg, q.wire) && Enabled(q, Turn(accept, back))
    ensures WireOk(cfg, Step(cfg, q, Turn(accept, back)).wire)
  {
    var n := Accepted(accept);
    var es := q.ring[..n];
    PassedPrefix(q.ring, BurstSize(|q.ring|), n);
    WirePrepared(cfg, es);
    WireConcat(cfg, q.wire, OnWire(cfg, Passed(es)));
  }

  lemma TurnKeeps(cfg: Config, q: Queue, accept: int, back: nat)
    requires Conserved(cfg, q) && Enabled(q, Turn(accept, back))
    ensures Conserved(cfg, Step(cfg, q, Turn(accept, back)))
  {
    TurnConserves(cfg, q, accept, back);
    TurnWire(cfg, q, accept, back);
  }

  ghost predicate Legal(cfg: Config, q: Queue, run: seq<Event>)
    decreases |run|
  {
    run == [] || (Enabled(q, run[0]) && Legal(cfg, Step(cfg, q, run[0]), run[1..]))
  }

  ghost function After(cfg: Config, q: Queue, run: seq<Event>): Queue
    requires Legal(cfg, q, run)
    decreases |run|
  {
    if run == [] then q else After(cfg, Step(cfg, q, run[0]), run[1..])
  }

  /** Over every run of arrivals and turns: each packet that arrived is in the
      ring, sent or freed, exactly once; and each packet on the wire looks as after
      a single pass, however often it was requeued. */
  lemma {:induction false} RunConserves(cfg: Config, q: Queue, run: seq<Event>)
    requires Conserved(cfg, q) && Legal(cfg, q, run)
    ensures Conserved(cfg, After(cfg, q, run))
    decreases |run|
  {
    if run != [] {
      match run[0] {
        case Arrive(pkts) => ArriveKeeps(cfg, q, pkts);
        case Turn(accept, back) => TurnKeeps(cfg, q, accept, back);
      }
      RunConserves(cfg, Step(cfg, q, run[0]), run[1..]);
    }
  }

  // ----- The burst in place

  ghost predicate AllPrepared(cfg: Config, before: seq<Mbuf>, after: seq<Mbuf>) {
    |after| == |before| && forall i :: 0 <= i < |after| ==> after[i] == Prepare(cfg, before[i])
  }

  /** The mbufs in a ring with these entries. */
  ghost function Contents(cfg: Config, es: seq<Entry>): seq<Mbuf> {
    seq(|es|, i requires 0 <= i < |es| => Current(cfg, es[i]))
  }

  ghost function EmptyQueue(): Queue {
    Queue([], multiset{}, multiset{}, multiset{}, [])
  }

  /** A prepared burst holds what its entries hold after one more pass. */
  lemma PassedContents(cfg: Config, es: seq<Entry>, pkts: seq<Mbuf>)
    requires AllPrepared(cfg, Contents(cfg, es), pkts)
    ensures pkts == Contents(cfg, Passed(es))
  {
    forall i | 0 <= i < |es|
      ensures pkts[i] == Contents(cfg, Passed(es))[i]
    {
      assert pkts[i] == Prepare(cfg, Contents(cfg, es)[i]);
    }
  }

  lemma StepContents(cfg: Config, q: Queue, pkts: seq<Mbuf>, accept: int, back: nat)
    requires Enabled(q, Turn(accept, back))
    requires AllPrepared(cfg, Contents(cfg, q.ring)[..BurstSize(|q.ring|)], pkts)
    ensures var k, n := BurstSize(|q.ring|), Accepted(accept);
      Contents(cfg, Step(cfg, q, Turn(accept, back)).ring) == Contents(cfg, q.ring)[k..] + pkts[n..n + back]
  {
    var k, n := BurstSize(|q.ring|), Accepted(accept);
    var burst := Passed(q.ring[..k]);
    assert Contents(cfg, q.ring)[..k] == Contents(cfg, q.ring[..k]);
    PassedContents(cfg, q.ring[..k], pkts);
    assert Contents(cfg, burst)[n..n + back] == Contents(cfg, burst[n..n + back]);
    assert Contents(cfg, q.ring)[k..] == Contents(cfg, q.ring[k..]);
    ContentsConcat(cfg, q.ring[k..], burst[n..n + back]);
  }

  lemma ContentsConcat(cfg: Config, a: seq<Entry>, b: seq<Entry>)
    ensures Contents(cfg, a + b) == Contents(cfg, a) + Contents(cfg, b)
  {
  }

  class TxQueue {
    var ring: seq<Mbuf>
    var pktCount: nat
    var requeueCount: nat
    ghost var view: Queue

    /** The ring holds the entries of the run model. */
    ghost predicate Valid(cfg: Config)
      reads this
    {
      ring == Contents(cfg, view.ring)
    }

    constructor ()
      ensures ring == [] && pktCount == 0 && requeueCount == 0
      ensures view == EmptyQueue() && forall cfg :: Valid(cfg) && Conserved(cfg, view)
    {
      ring, pktCount, requeueCount := [], 0, 0;
      view := EmptyQueue();
    }

    /** Packets that an RX core enqueued. */
    method Receive(cfg: Config, pkts: seq<Mbuf>)
      requires Valid(cfg)
      modifies this
      ensures Valid(cfg) && ring == old(ring) + pkts
      ensures pktCount == old(pktCount) && requeueCount == old(requeueCount)
      ensures view == Step(cfg, old(view), Arrive(pkts))
    {
      ring := ring + pkts;
      view := Step(cfg, view, Arrive(pkts));
    }

    /** eth_tx.c:24-55 and 60-117 for one queue: `accept` is the NIC's answer and
        `room` the free space of the ring when the rest is put back. */
    method SendBurst(cfg: Config, accept: int, room: nat)
      returns (sent: seq<Mbuf>, requeued: seq<Mbuf>, freed: seq<Mbuf>)
      requires accept <= BurstSize(|ring|)
      modifies this`ring, this`pktCount, this`requeueCount
      ensures var k := if |old(ring)| < 64 then |old(ring)| else 64;
        && AllPrepared(cfg, old(ring)[..k], sent + requeued + freed)
        && |sent| == (if accept < 0 then 0 else accept)
        && |requeued| == (if room < k - |sent| then room else k - |sent|)
        && ring == old(ring)[k..] + requeued
        && pktCount == (old(pktCount) + |sent|) % COUNTER32
        && requeueCount == (old(requeueCount) + |requeued|) % COUNTER32
    {
      var num := BurstSize(|ring|);
      var pkts := PrepareBurst(cfg, ring[..num]);
      ring := ring[num..];
      var ret := accept;
      if ret < 0 {
        ret := 0;
      }
      var enq := if room < num - ret then room else num - ret;
      sent, requeued, freed := pkts[..ret], pkts[ret..ret + enq], pkts[ret + enq..];
      assert sent + requeued + freed == pkts[..];
      ring := ring + requeued;
      requeueCount := (requeueCount + enq) % COUNTER32;
      pktCount := (pktCount + ret) % COUNTER32;
    }

    /** One turn of the queue is one step of the run model. */
    method TakeTurn(cfg: Config, accept: int, room: nat)
      returns (sent: seq<Mbuf>, requeued: seq<Mbuf>, freed: seq<Mbuf>)
      requires Valid(cfg) && accept <= BurstSize(|ring|)
      modifies this
      ensures Valid(cfg) && Enabled(old(view), Turn(accept, |requeued|))
      ensures view == Step(cfg, old(view), Turn(accept, |requeued|))
      ensures var k := if |old(ring)| < 64 then |old(ring)| else 64;
        && AllPrepared(cfg, old(ring)[..k], sent + requeued + freed)
        && |sent| == (if accept < 0 then 0 else accept)
        && |requeued| == (if room < k - |sent| then room else k - |sent|)
        && ring == old(ring)[k..] + requeued
        && pktCount == (old(pktCount) + |sent|) % COUNTER32
        && requeueCount == (old(requeueCount) + |requeued|) % COUNTER32
    {
      ghost var q := view;
      sent, requeued, freed := SendBurst(cfg, accept, room);
      ghost var pkts := sent + requeued + freed;
      assert pkts[|sent|..|sent| + |requeued|] == requeued;
      StepContents(cfg, q, pkts, accept, |requeued|);
      view := Step(cfg, q, Turn(accept, |requeued|));
    }
  }

  /** eth_tx.c:22-52 and 73: the dequeued burst, rewritten and flagged in place. */
  method PrepareBurst(cfg: Config, burst: seq<Mbuf>) returns (pkts: array<Mbuf>)
    ensures fresh(pkts) && AllPrepared(cfg, burst, pkts[..])
  {
    pkts := new Mbuf[|burst|](i requires 0 <= i < |burst| => burst[i]);
    RewriteAll(cfg, pkts, burst);
    OffloadAll(cfg, pkts, burst);
  }

  /** eth_tx.c:34-52 */
  method RewriteAll(cfg: Config, pkts: array<Mbuf>, ghost before: seq<Mbuf>)
    requires pkts[..] == before
    modifies pkts
    ensures forall i :: 0 <= i < pkts.Length ==> pkts[i] == Rewrite(cfg, before[i])
  {
    for j := 0 to pkts.Length
      invariant forall i :: 0 <= i < j ==> pkts[i] == Rewrite(cfg, before[i])
      invariant forall i :: j <= i < pkts.Length ==> pkts[i] == before[i]
    {
      var m := pkts[j].(src := cfg.nicMac);
      if m.dst == BROADCAST || IsMulticast(m.dst) {
      } else if m.dst == cfg.mac {
        m := m.(dst := cfg.otherMac);
      }
      pkts[j] := m;
    }
  }

  /** fastpath.h:76-125 */
  method OffloadAll(cfg: Config, pkts: array<Mbuf>, ghost before: seq<Mbuf>)
    requires |before| == pkts.Length
    requires forall i :: 0 <= i < pkts.Length ==> pkts[i] == Rewrite(cfg, before[i])
    modifies pkts
    ensures AllPrepared(cfg, before, pkts[..])
  {
    for j := 0 to pkts.Length
      invariant forall i :: 0 <= i < j ==> pkts[i] == Prepare(cfg, before[i])
      invariant forall i :: j <= i < pkts.Length ==> pkts[i] == Rewrite(cfg, before[i])
    {
      pkts[j] := Offload(pkts[j]);
    }
  }

  // ----- Which core serves which ring

  /** eth_tx.c:20: the queues that the core with first queue `r` visits. */
  method QueuesOf(r: nat, cores: nat, queues: nat) returns (visited: seq<nat>)
    requires r < cores
    ensures forall i: nat :: i in visited <==> i < queues && i % cores == r
    ensures forall a, b :: 0 <= a < b < |visited| ==> visited[a] < visited[b]
  {
    visited := [];
    var i := r;
    ModUnique(r, 0, r, cores);
    forall x: nat | x < r
      ensures x % cores != r
    {
      ModUnique(x, 0, x, cores);
    }
    while i < queues
      invariant r <= i && i % cores == r
      invariant forall x: nat :: x in visited <==> x < queues && x < i && x % cores == r
      invariant forall a, b :: 0 <= a < b < |visited| ==> visited[a] < visited[b]
      decreases queues - i
    {
      forall x | i < x < i + cores
        ensures x % cores != r
      {
        NoneBetween(i, x, cores);
      }
      NextOfStride(i, cores);
      assert forall a :: 0 <= a < |visited| ==> visited[a] in visited;
      visited := visited + [i];
      i := i + cores;
    }
  }

  lemma NextOfStride(i: nat, cores: nat)
    requires cores > 0
    ensures (i + cores) % cores == i % cores
  {
    ModUnique(i + cores, i / cores + 1, i % cores, cores);
  }

  lemma NoneBetween(i: nat, x: nat, cores: nat)
    requires i < x < i + cores
    ensures x % cores != i % cores
  {
    var q, r := i / cores, i % cores;
    assert i == q * cores + r;
    if r + (x - i) < cores {
      ModUnique(x, q, r + (x - i), cores);
    } else {
      assert (q + 1) * cores == q * cores + cores;
      ModUnique(x, q + 1, r + (x - i) - cores, cores);
    }
  }
}
