/** The last-octet route table and address learning (src/vhost/route.c:10-39,
    src/vhost/vmdq.c:16-94, src/vhost/vhost.h:104-109). */
module Routing {
  import opened Topology
  import Dispatch

  /** A device structure; the address is 0 until one is learned. */
  datatype Device = Device(ip: nat, ready: Readiness)

  /** The table and the listed devices. */
  datatype State = State(octets: seq<int>, devs: map<nat, Device>)

  /** The source address in the first packet, if it is IPv4 or ARP. */
  datatype Heard = Nothing | Address(ip: nat)

  predicate Local(net: nat, ip: nat) { ip / 256 == net }

  function Initial(): State {
    State(seq(256, _ => -1), map[])
  }

  function Find(octets: seq<int>, ip: nat): int
    requires |octets| == 256
  {
    octets[ip % 256]
  }

  function AddEntry(octets: seq<int>, vid: nat, ip: nat): seq<int>
    requires |octets| == 256
  {
    if octets[ip % 256] != -1 then octets else octets[ip % 256 := vid]
  }

  function RemoveEntry(octets: seq<int>, ip: nat): seq<int>
    requires |octets| == 256
  {
    octets[ip % 256 := -1]
  }

  /** The address a device has after a packet: a frame that is neither IPv4 nor
      ARP leaves it as it was. */
  function Learned(d: Device, heard: Heard): nat {
    if heard.Address? then heard.ip else d.ip
  }

  /** link_vmdq: the device becomes ready whether or not the entry was added. */
  function Link(s: State, vid: nat, heard: Heard): State
    requires |s.octets| == 256
  {
    if vid !in s.devs then s
    else
      var ip := Learned(s.devs[vid], heard);
      State(AddEntry(s.octets, vid, ip), s.devs[vid := Device(ip, DeviceRx)])
  }

  function Attach(s: State, vid: nat): State {
    s.(devs := s.devs[vid := Device(0, MacLearning)])
  }

  /** destroy_device with unlink_vmdq. */
  function Detach(s: State, vid: nat): State
    requires |s.octets| == 256
  {
    if vid !in s.devs then s
    else if s.devs[vid].ready.DeviceRx? then State(RemoveEntry(s.octets, s.devs[vid].ip), s.devs - {vid})
    else s.(devs := s.devs - {vid})
  }

  // ----- The reference: exact lookup over the ready devices

  /** Device `vid` is ready and has exactly this address. */
  predicate Owns(s: State, vid: int, ip: nat) {
    vid in s.devs && s.devs[vid].ready.DeviceRx? && s.devs[vid].ip == ip
  }

  /** The octet table answers every address of the local /24 as a map from full
      addresses to ready devices would, and ready devices are local. */
  ghost predicate Exact(s: State, net: nat) {
    && |s.octets| == 256
    && (forall vid :: vid in s.devs && s.devs[vid].ready.DeviceRx? ==> Local(net, s.devs[vid].ip))
    && (forall ip: nat, vid: nat :: Local(net, ip) ==> (Find(s.octets, ip) == vid <==> Owns(s, vid, ip)))
    && (forall o :: 0 <= o < 256 ==> s.octets[o] >= -1)
  }

  /** So a lookup finds a device exactly when one has the address. */
  lemma ExactLookup(s: State, net: nat, ip: nat)
    requires Exact(s, net) && Local(net, ip)
    ensures Find(s.octets, ip) == -1 <==> forall vid: nat :: !Owns(s, vid, ip)
    ensures Find(s.octets, ip) != -1 ==> Owns(s, Find(s.octets, ip), ip)
  {
    var vid := Find(s.octets, ip);
    if vid != -1 {
      assert Owns(s, vid, ip);
    }
  }

  lemma SameOctet(net: nat, x: nat, y: nat)
    requires Local(net, x) && Local(net, y) && x % 256 == y % 256
    ensures x == y
  {
  }

  lemma AttachExact(s: State, net: nat, vid: nat)
    requires Exact(s, net) && vid !in s.devs
    ensures Exact(Attach(s, vid), net)
  {
    var s' := Attach(s, vid);
    forall ip: nat, u: nat | Local(net, ip)
      ensures Find(s'.octets, ip) == u <==> Owns(s', u, ip)
    {
      assert Find(s.octets, ip) == u <==> Owns(s, u, ip);
    }
  }

  /** Unlinking forgets the device and its address and nothing else. */
  lemma DetachExact(s: State, net: nat, vid: nat)
    requires Exact(s, net)
    ensures Exact(Detach(s, vid), net)
    ensures vid !in Detach(s, vid).devs && forall ip: nat :: Local(net, ip) ==> Find(Detach(s, vid).octets, ip) != vid
    ensures forall v: nat, ip: nat :: v != vid ==> (Owns(Detach(s, vid), v, ip) <==> Owns(s, v, ip))
  {
    var s' := Detach(s, vid);
    if vid in s.devs {
      forall ip: nat, u: nat | Local(net, ip)
        ensures Find(s'.octets, ip) == u <==> Owns(s', u, ip)
      {
        assert Find(s.octets, ip) == u <==> Owns(s, u, ip);
        assert Find(s.octets, ip) == vid <==> Owns(s, vid, ip);
        if s.devs[vid].ready.DeviceRx? && ip % 256 == s.devs[vid].ip % 256 {
          SameOctet(net, ip, s.devs[vid].ip);
        }
      }
    }
    assert Exact(s', net);
    forall ip: nat | Local(net, ip)
      ensures Find(s'.octets, ip) != vid
    {
      assert Find(s'.octets, ip) == vid <==> Owns(s', vid, ip);
    }
  }

  /** First learning keeps the table exact exactly when the address is local and
      its octet is free. */
  lemma FirstLinkExact(s: State, net: nat, vid: nat, heard: Heard)
    requires Exact(s, net) && vid in s.devs && !s.devs[vid].ready.DeviceRx?
    ensures var ip := Learned(s.devs[vid], heard);
      Exact(Link(s, vid, heard), net) <==> Local(net, ip) && Find(s.octets, ip) == -1
  {
    var ip := Learned(s.devs[vid], heard);
    var s' := Link(s, vid, heard);
    assert s'.devs[vid] == Device(ip, DeviceRx);
    if Local(net, ip) && Find(s.octets, ip) == -1 {
      forall x: nat, u: nat | Local(net, x)
        ensures Find(s'.octets, x) == u <==> Owns(s', u, x)
      {
        assert Find(s.octets, x) == u <==> Owns(s, u, x);
        if x % 256 == ip % 256 {
          SameOctet(net, x, ip);
        }
      }
    }
    if Exact(s', net) {
      assert Local(net, ip);
      assert Find(s'.octets, ip) == vid <==> Owns(s', vid, ip);
      assert !Owns(s, vid, ip);
    }
  }

  /** Learning again keeps it exact exactly when the address is unchanged. */
  lemma RelinkExact(s: State, net: nat, vid: nat, heard: Heard)
    requires Exact(s, net) && vid in s.devs && s.devs[vid].ready.DeviceRx?
    ensures Exact(Link(s, vid, heard), net) <==> Learned(s.devs[vid], heard) == s.devs[vid].ip
  {
    var prev := s.devs[vid].ip;
    var ip := Learned(s.devs[vid], heard);
    var s' := Link(s, vid, heard);
    assert Find(s.octets, prev) == vid <==> Owns(s, vid, prev);
    if ip == prev {
      assert s' == s;
    } else {
      assert Find(s'.octets, prev) == vid;
      assert !Owns(s', vid, prev);
    }
  }

  /** A VM whose first frame is neither IPv4 nor ARP is registered under address 0:
      on any network but 0.0.0.0/24 the table then claims an address that no
      device has. */
  lemma FirstFrameWithoutAddress(net: nat, vid: nat)
    requires net > 0
    ensures var s := Link(Attach(Initial(), vid), vid, Nothing);
      !Exact(s, net) && Find(s.octets, net * 256) == vid && !Owns(s, vid, net * 256)
  {
    var s0 := Attach(Initial(), vid);
    assert Exact(Initial(), net);
    AttachExact(Initial(), net, vid);
    FirstLinkExact(s0, net, vid, Nothing);
    assert (net * 256) % 256 == 0;
  }

  // ----- Runs with one address per vid

  datatype Event = AttachEv(vid: nat) | LearnEv(vid: nat, heard: Heard) | DetachEv(vid: nat)

  /** Each vid has one address, all local, with distinct last octets. */
  ghost predicate Addressing(net: nat, addr: nat -> nat) {
    && (forall v: nat :: v < MAX_VHOSTS ==> Local(net, addr(v)))
    && (forall v: nat, w: nat :: v != w && v < MAX_VHOSTS && w < MAX_VHOSTS ==> addr(v) % 256 != addr(w) % 256)
  }

  ghost predicate Enabled(s: State, e: Event, addr: nat -> nat) {
    && e.vid < MAX_VHOSTS
    && match e
       case AttachEv(v) => v !in s.devs
       case LearnEv(v, heard) => heard == Address(addr(v))
       case DetachEv(v) => true
  }

  function Step(s: State, e: Event): (s': State)
    requires |s.octets| == 256
    ensures |s'.octets| == 256
  {
    match e
    case AttachEv(v) => Attach(s, v)
    case LearnEv(v, heard) => Link(s, v, heard)
    case DetachEv(v) => Detach(s, v)
  }

  ghost predicate Inv(s: State, net: nat, addr: nat -> nat) {
    && Exact(s, net)
    && forall v :: v in s.devs ==> v < MAX_VHOSTS && (s.devs[v].ready.DeviceRx? ==> s.devs[v].ip == addr(v))
  }

  lemma StepKeepsInv(s: State, e: Event, net: nat, addr: nat -> nat)
    requires Addressing(net, addr) && Inv(s, net, addr) && Enabled(s, e, addr)
    ensures Inv(Step(s, e), net, addr)
  {
    match e
    case AttachEv(v) => AttachExact(s, net, v);
    case DetachEv(v) => DetachExact(s, net, v);
    case LearnEv(v, heard) =>
      if v in s.devs {
        if s.devs[v].ready.DeviceRx? {
          RelinkExact(s, net, v, heard);
        } else {
          var ip := addr(v);
          var w := Find(s.octets, ip);
          assert w == -1 || Owns(s, w, ip);
          FirstLinkExact(s, net, v, heard);
        }
      }
  }

  ghost predicate Legal(s: State, run: seq<Event>, addr: nat -> nat)
    requires |s.octets| == 256
    decreases |run|
  {
    run == [] || (Enabled(s, run[0], addr) && Legal(Step(s, run[0]), run[1..], addr))
  }

  ghost function After(s: State, run: seq<Event>): State
    requires |s.octets| == 256
    decreases |run|
  {
    if run == [] then s else After(Step(s, run[0]), run[1..])
  }

  /** Every run of attach, learn, repeated learn and detach keeps the octet table
      equal to an exact map of the ready devices. */
  lemma {:induction false} RunExact(s: State, run: seq<Event>, net: nat, addr: nat -> nat)
    requires Addressing(net, addr) && Inv(s, net, addr) && Legal(s, run, addr)
    ensures Inv(After(s, run), net, addr)
    decreases |run|
  {
    if run != [] {
      StepKeepsInv(s, run[0], net, addr);
      RunExact(Step(s, run[0]), run[1..], net, addr);
    }
  }

  // ----- Who owns an address, from the events alone

  /** The attached vids after a run, and those heard from since their last attach. */
  datatype Heads = Heads(attached: set<nat>, learned: set<nat>)

  ghost function Follow(h: Heads, e: Event): Heads {
    match e
    case AttachEv(v) => Heads(h.attached + {v}, h.learned - {v})
    case LearnEv(v, _) => if v in h.attached then h.(learned := h.learned + {v}) else h
    case DetachEv(v) => Heads(h.attached - {v}, h.learned - {v})
  }

  ghost function FollowAll(h: Heads, run: seq<Event>): Heads
    decreases |run|
  {
    if run == [] then h else FollowAll(Follow(h, run[0]), run[1..])
  }

  ghost function LearnedBy(run: seq<Event>): set<nat> {
    FollowAll(Heads({}, {}), run).learned
  }

  /** A vid is learned exactly when some event learned it, it was attached before
      that, and neither attached nor detached after. */
  lemma {:induction false} LearnedMeaning(run: seq<Event>, v: nat)
    ensures v in LearnedBy(run) <==> exists a, b :: HeardSince(run, v, a, b)
    ensures v in FollowAll(Heads({}, {}), run).attached <==> exists a :: AttachedSince(run, v, a)
    decreases |run|
  {
    if run == [] {
    } else {
      var front, e := run[..|run| - 1], run[|run| - 1];
      LearnedMeaning(front, v);
      FollowSnoc(Heads({}, {}), front, e);
      assert front + [e] == run;
      AttachedSnoc(front, e, v);
      HeardSnoc(front, e, v);
    }
  }

  ghost predicate AttachedSince(run: seq<Event>, v: nat, a: nat) {
    a < |run| && run[a] == AttachEv(v) && forall i :: a < i < |run| ==> run[i] != DetachEv(v)
  }

  ghost predicate HeardSince(run: seq<Event>, v: nat, a: nat, b: nat) {
    && AttachedSince(run, v, a) && a < b < |run| && run[b].LearnEv? && run[b].vid == v
    && forall i :: b < i < |run| ==> run[i] != AttachEv(v)
  }

  lemma {:induction false} FollowSnoc(h: Heads, run: seq<Event>, e: Event)
    ensures FollowAll(h, run + [e]) == Follow(FollowAll(h, run), e)
    decreases |run|
  {
    if run == [] {
      assert (run + [e])[1..] == [];
    } else {
      FollowSnoc(Follow(h, run[0]), run[1..], e);
      assert (run + [e])[1..] == run[1..] + [e];
    }
  }

  lemma AttachedSnoc(run: seq<Event>, e: Event, v: nat)
    ensures (exists a :: AttachedSince(run + [e], v, a)) <==>
      e == AttachEv(v) || (e != DetachEv(v) && exists a :: AttachedSince(run, v, a))
  {
    var r := run + [e];
    if e == AttachEv(v) {
      assert AttachedSince(r, v, |run|);
    }
    forall a: nat | AttachedSince(run, v, a) && e != DetachEv(v)
      ensures AttachedSince(r, v, a)
    {
    }
    forall a: nat | AttachedSince(r, v, a)
      ensures e == AttachEv(v) || (e != DetachEv(v) && AttachedSince(run, v, a))
    {
      assert r[|run|] == e;
      if a < |run| {
        assert forall i :: 0 <= i < |run| ==> r[i] == run[i];
      }
    }
  }

  lemma HeardSnoc(run: seq<Event>, e: Event, v: nat)
    ensures (exists a, b :: HeardSince(run + [e], v, a, b)) <==>
      || (e.LearnEv? && e.vid == v && exists a :: AttachedSince(run, v, a))
      || (e != AttachEv(v) && e != DetachEv(v) && exists a, b :: HeardSince(run, v, a, b))
  {
    var r := run + [e];
    assert forall i :: 0 <= i < |run| ==> r[i] == run[i];
    assert r[|run|] == e;
    forall a: nat | AttachedSince(run, v, a) && e.LearnEv? && e.vid == v
      ensures HeardSince(r, v, a, |run|)
    {
    }
    forall a: nat, b: nat | HeardSince(run, v, a, b) && e != AttachEv(v) && e != DetachEv(v)
      ensures HeardSince(r, v, a, b)
    {
    }
    forall a: nat, b: nat | HeardSince(r, v, a, b)
      ensures || (e.LearnEv? && e.vid == v && AttachedSince(run, v, a))
              || (e != AttachEv(v) && e != DetachEv(v) && HeardSince(run, v, a, b))
    {
    }
  }

  /** The state agrees with the events. */
  ghost predicate Agrees(s: State, h: Heads) {
    && (forall v :: v in s.devs <==> v in h.attached)
    && (forall v :: v in h.learned <==> v in s.devs && s.devs[v].ready.DeviceRx?)
  }

  lemma {:induction false} RunAgrees(s: State, h: Heads, run: seq<Event>)
    requires |s.octets| == 256 && Agrees(s, h)
    ensures Agrees(After(s, run), FollowAll(h, run))
    decreases |run|
  {
    if run != [] {
      RunAgrees(Step(s, run[0]), Follow(h, run[0]), run[1..]);
    }
  }

  lemma OwnersByEvents(run: seq<Event>, net: nat, addr: nat -> nat, ip: nat, vid: nat)
    requires Addressing(net, addr) && Legal(Initial(), run, addr)
    ensures Owns(After(Initial(), run), vid, ip) <==> vid in LearnedBy(run) && addr(vid) == ip
    ensures vid in LearnedBy(run) ==> vid < MAX_VHOSTS
  {
    RunExact(Initial(), run, net, addr);
    RunAgrees(Initial(), Heads({}, {}), run);
  }

  /** After every run with fixed local addresses of distinct octets, the table finds a
      vid for an address exactly when that vid has this address and was heard from
      since its last attach, and nobody exactly when there is no such vid. */
  lemma RoutesAreExact(run: seq<Event>, net: nat, addr: nat -> nat, ip: nat, vid: nat)
    requires Addressing(net, addr) && Legal(Initial(), run, addr) && Local(net, ip)
    ensures var s := After(Initial(), run);
      && |s.octets| == 256
      && (Find(s.octets, ip) == vid <==> vid in LearnedBy(run) && addr(vid) == ip)
      && (Find(s.octets, ip) == -1 <==> forall v: nat :: !(v in LearnedBy(run) && addr(v) == ip))
  {
    var s := After(Initial(), run);
    RunExact(Initial(), run, net, addr);
    ExactLookup(s, net, ip);
    forall v: nat
      ensures Owns(s, v, ip) <==> v in LearnedBy(run) && addr(v) == ip
    {
      OwnersByEvents(run, net, addr, ip, v);
    }
  }

  /** The loops' subnet check and octet lookup therefore send a packet to a VM
      exactly when that VM is ready and has the packet's destination address. */
  lemma DispatchAgrees(s: State, env: Dispatch.Env, p: Dispatch.Packet, vid: nat)
    requires Dispatch.EnvOk(env) && env.octets == s.octets && Exact(s, env.ip / 256)
    requires forall v :: v in s.devs ==> v < MAX_VHOSTS
    ensures var dst := if p.header.Ipv4? then p.header.dstIp else if p.header.Arp? then p.header.targetIp else 0;
      var toVm := !Dispatch.ForSwitch(env, p.header) && Owns(s, vid, dst);
      && (Dispatch.RouteFromVm(env, p) == Dispatch.ToVm(vid) <==> toVm)
      && (dst != 0 ==> (Dispatch.RouteFromNic(env, p) == Dispatch.ToVm(vid) <==> toVm))
  {
    var dst := Dispatch.FlowOf(p.header).dstIp;
    if Local(env.ip / 256, dst) {
      assert Find(s.octets, dst) == vid <==> Owns(s, vid, dst);
    }
  }

  /** After every run, for every header: the loops send to the slow path exactly the
      ARP requests for the switch; to a VM exactly what is addressed to it, once it was
      heard from since its last attach; to nobody the local addresses without such a
      VM; and to the queue of its flow's hash everything from a VM that is not local.
      From the NIC only packets for a VM (and not for address 0) go on. */
  lemma DispatchAfterRun(run: seq<Event>, addr: nat -> nat, env: Dispatch.Env, p: Dispatch.Packet, vid: nat)
    requires Addressing(env.ip / 256, addr) && Legal(Initial(), run, addr)
    requires Dispatch.EnvOk(env) && env.octets == After(Initial(), run).octets
    ensures var h := p.header;
      var dst := if h.Ipv4? then h.dstIp else if h.Arp? then h.targetIp else 0;
      var mine := h.Arp? && h.request && h.targetIp == env.ip;
      var local := dst / 256 == env.ip / 256;
      var owned := vid in LearnedBy(run) && addr(vid) == dst;
      var nobody := forall v: nat :: !(v in LearnedBy(run) && addr(v) == dst);
      var r, n := Dispatch.RouteFromVm(env, p), Dispatch.RouteFromNic(env, p);
      && (r == Dispatch.Slow <==> mine)
      && (r == Dispatch.ToVm(vid) <==> !mine && owned)
      && (r == Dispatch.Unroutable <==> !mine && local && nobody)
      && (r.ToEth? <==> !mine && !local)
      && (r.ToEth? && h.Ipv4? ==>
            var ports := h.proto == 6 || h.proto == 17;
            r.queue == env.hash(Dispatch.Flow(h.srcIp, h.dstIp, if ports then h.srcPort else 0,
                                              if ports then h.dstPort else 0, h.proto)) % env.queues)
      && (r.ToEth? && h.Arp? ==>
            r.queue == env.hash(Dispatch.Flow(h.senderIp, h.targetIp, 0, 0, 0)) % env.queues)
      && (r.ToEth? && h.Other? ==> r.queue == env.hash(Dispatch.Flow(0, 0, 0, 0, 0)) % env.queues)
      && (n == Dispatch.Slow <==> mine)
      && (n == Dispatch.ToVm(vid) <==> !mine && dst != 0 && owned)
      && (n == Dispatch.Unroutable <==> !mine && (dst == 0 || nobody))
  {
    var s := After(Initial(), run);
    var h, net := p.header, env.ip / 256;
    var dst := if h.Ipv4? then h.dstIp else if h.Arp? then h.targetIp else 0;
    RunExact(Initial(), run, net, addr);
    DispatchAgrees(s, env, p, vid);
    forall v: nat
      ensures Owns(s, v, dst) <==> v in LearnedBy(run) && addr(v) == dst
    {
      OwnersByEvents(run, net, addr, dst, v);
    }
    if Local(net, dst) {
      ExactLookup(s, net, dst);
      FoundIsVid(s, net, dst);
    }
  }

  lemma FoundIsVid(s: State, net: nat, ip: nat)
    requires Exact(s, net) && Local(net, ip) && forall v :: v in s.devs ==> v < MAX_VHOSTS
    ensures Find(s.octets, ip) == -1 || 0 <= Find(s.octets, ip) < MAX_VHOSTS
  {
    ExactLookup(s, net, ip);
  }

  // ----- The global array

  class Router {
    const octets: array<int>
    var devs: map<nat, Device>

    ghost predicate Valid() reads this { octets.Length == 256 }

    ghost function View(): State
      reads this, octets
    {
      State(octets[..], devs)
    }

    constructor ()
      ensures Valid() && fresh(octets) && View() == Initial()
      ensures devs == map[] && forall o :: 0 <= o < 256 ==> octets[o] == -1
    {
      octets := new int[256];
      devs := map[];
      new;
      for i := 0 to 256
        invariant devs == map[] && forall k :: 0 <= k < i ==> octets[k] == -1
      {
        octets[i] := -1;
      }
    }

    method AddRouteEntry(vid: nat, ip: nat) returns (ok: bool)
      requires Valid()
      modifies octets
      ensures ok == (old(octets[ip % 256]) == -1)
      ensures octets[..] == AddEntry(old(octets[..]), vid, ip)
    {
      if octets[ip % 256] != -1 {
        return false;
      }
      octets[ip % 256] := vid;
      return true;
    }

    method RemoveRouteEntry(ip: nat) returns (ok: bool)
      requires Valid()
      modifies octets
      ensures ok == (old(octets[ip % 256]) != -1)
      ensures octets[..] == RemoveEntry(old(octets[..]), ip)
    {
      if octets[ip % 256] == -1 {
        assert octets[..] == octets[..][ip % 256 := -1];
        return false;
      }
      octets[ip % 256] := -1;
      return true;
    }

    method LinkVmdq(vid: nat, heard: Heard)
      requires Valid()
      modifies this, octets
      ensures Valid() && View() == Link(old(View()), vid, heard)
      ensures vid in old(devs) ==>
        var ip := if heard.Address? then heard.ip else old(devs)[vid].ip;
        && devs == old(devs)[vid := Device(ip, DeviceRx)]
        && (forall o :: 0 <= o < 256 ==>
              octets[o] == if o == ip % 256 && old(octets[o]) == -1 then vid else old(octets[o]))
    {
      if vid !in devs {
        return;
      }
      var d := devs[vid];
      if heard.Address? {
        d := d.(ip := heard.ip);
      }
      var ok := AddRouteEntry(vid, d.ip);
      devs := devs[vid := d.(ready := DeviceRx)];
    }

    method UnlinkAndForget(vid: nat)
      requires Valid()
      modifies this, octets
      ensures Valid() && View() == Detach(old(View()), vid)
      ensures devs == old(devs) - {vid}
      ensures forall o :: 0 <= o < 256 ==>
        octets[o] == if vid in old(devs) && old(devs)[vid].ready.DeviceRx? && o == old(devs)[vid].ip % 256 then -1
                     else old(octets[o])
    {
      if vid !in devs {
        return;
      }
      if devs[vid].ready.DeviceRx? {
        var ok := RemoveRouteEntry(devs[vid].ip);
      }
      devs := devs - {vid};
    }
  }
}
