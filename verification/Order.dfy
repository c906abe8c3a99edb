/** End-to-end order between two VMs: polling, scatter, ring and TX together, in
    every interleaving of RX and TX steps (src/fast/vhost_rx.c:164-278,
    src/ring.c:19-25, src/fast/vhost_tx.c:20-132). */
module Order {
  import opened Topology
  import opened Dispatch
  import VhostTx

  // ----- In-order subsequences

  /** `at` maps the positions of `a` to strictly increasing positions of `b`. */
  ghost predicate Embeds(a: seq<Packet>, b: seq<Packet>, at: seq<nat>) {
    && |at| == |a|
    && (forall i :: 0 <= i < |at| ==> at[i] < |b| && b[at[i]] == a[i])
    && (forall i, j :: 0 <= i < j < |at| ==> at[i] < at[j])
  }

  ghost predicate InOrder(a: seq<Packet>, b: seq<Packet>) {
    exists at: seq<nat> :: Embeds(a, b, at)
  }

  lemma InOrderRefl(a: seq<Packet>)
    ensures InOrder(a, a)
  {
    assert Embeds(a, a, seq(|a|, i => i));
  }

  lemma InOrderEmpty(b: seq<Packet>)
    ensures InOrder([], b)
  {
    assert Embeds([], b, []);
  }

  lemma InOrderTrans(a: seq<Packet>, b: seq<Packet>, c: seq<Packet>)
    requires InOrder(a, b) && InOrder(b, c)
    ensures InOrder(a, c)
  {
    var f: seq<nat> :| Embeds(a, b, f);
    var g: seq<nat> :| Embeds(b, c, g);
    var h: seq<nat> := seq(|a|, i requires 0 <= i < |a| => g[f[i]]);
    assert Embeds(a, c, h);
  }

  lemma InOrderConcat(a: seq<Packet>, b: seq<Packet>, c: seq<Packet>, d: seq<Packet>)
    requires InOrder(a, b) && InOrder(c, d)
    ensures InOrder(a + c, b + d)
  {
    var f: seq<nat> :| Embeds(a, b, f);
    var g: seq<nat> :| Embeds(c, d, g);
    var h: seq<nat> := f + seq(|c|, i requires 0 <= i < |c| => |b| + g[i]);
    assert Embeds(a + c, b + d, h);
  }

  lemma DropMiddle(a: seq<Packet>, b: seq<Packet>, c: seq<Packet>)
    ensures InOrder(a + c, a + b + c)
  {
    InOrderRefl(a);
    InOrderEmpty(b);
    InOrderRefl(c);
    InOrderConcat(a, a, [], b);
    assert a + [] == a;
    InOrderConcat(a, a + b, c, c);
  }

  lemma {:induction false} RoutedInOrder(rt: Packet -> Route, s: seq<Packet>, r: Route)
    ensures InOrder(Routed(rt, s, r), s)
    ensures forall p :: p in Routed(rt, s, r) ==> p in s
    decreases |s|
  {
    if s == [] {
      InOrderEmpty(s);
    } else {
      var t, p := s[..|s| - 1], s[|s| - 1];
      RoutedInOrder(rt, t, r);
      var last := if rt(p) == r then [p] else [];
      InOrderRefl([p]);
      InOrderEmpty([p]);
      InOrderConcat(Routed(rt, t, r), t, last, [p]);
      assert t + [p] == s;
    }
  }

  // ----- Packets by source

  ghost function From(s: seq<Packet>, src: nat): seq<Packet> {
    if s == [] then []
    else From(s[..|s| - 1], src) + if s[|s| - 1].source == src then [s[|s| - 1]] else []
  }

  lemma {:induction false} FromConcat(a: seq<Packet>, b: seq<Packet>, src: nat)
    ensures From(a + b, src) == From(a, src) + From(b, src)
    decreases |b|
  {
    if b == [] {
      assert a + b == a;
    } else {
      var t, p := b[..|b| - 1], b[|b| - 1];
      FromConcat(a, t, src);
      assert (a + b)[..|a + b| - 1] == a + t;
    }
  }

  lemma {:induction false} FromUniform(a: seq<Packet>, owner: nat, src: nat)
    requires forall p :: p in a ==> p.source == owner
    ensures From(a, src) == if owner == src then a else []
    decreases |a|
  {
    if a != [] {
      var t, p := a[..|a| - 1], a[|a| - 1];
      assert p in a;
      assert a == t + [p];
      FromUniform(t, owner, src);
    }
  }

  lemma {:induction false} FromForeign(a: seq<Packet>, src: nat)
    requires forall p :: p in a ==> p.source != src
    ensures From(a, src) == []
    decreases |a|
  {
    if a != [] {
      var t, p := a[..|a| - 1], a[|a| - 1];
      assert p in a;
      assert a == t + [p];
      FromForeign(t, src);
    }
  }

  // ----- The pipeline

  /** Indexed by vid: everything polled from a VM; the buckets its RX core has
      filled but not flushed and what a full ring cost it, by destination; the ring,
      the TX record and the packets received so far, by destination; and the history
      of each destination: all that entered its ring and what a refused retry cost. */
  datatype State = State(
    polled: seq<seq<Packet>>,
    pending: seq<seq<seq<Packet>>>,
    overflow: seq<seq<seq<Packet>>>,
    ring: seq<seq<Packet>>,
    vm: seq<VhostTx.Vm<Packet>>,
    delivered: seq<seq<Packet>>,
    entered: seq<seq<Packet>>,
    dropped: seq<seq<Packet>>)

  /** Polls and flushes of one VM's core alternate; different cores interleave
      freely. `Inject` is any other producer (NIC, slow path). */
  datatype Action =
    | Poll(src: nat, burst: seq<Packet>, rt: Packet -> Route)
    | Flush(src: nat, dst: nat, accepted: nat)
    | Inject(dst: nat, pkts: seq<Packet>)
    | Send(dst: nat, gate: nat, accept: int, now: nat)

  predicate Shaped(s: State) {
    && |s.polled| == |s.pending| == |s.overflow| == |s.ring| == |s.vm| == MAX_VHOSTS
    && |s.delivered| == |s.entered| == |s.dropped| == MAX_VHOSTS
    && forall i :: 0 <= i < MAX_VHOSTS ==> |s.pending[i]| == |s.overflow[i]| == MAX_VHOSTS
  }

  function VisitOf(s: State, dst: nat, gate: nat, accept: int, now: nat): VhostTx.Visit<Packet>
    requires dst < |s.ring|
  {
    VhostTx.Visit(gate, s.ring[dst], accept, now)
  }

  /** A burst is polled when the last one is flushed; a ring accepts any prefix;
      the guest takes any prefix or fails. */
  ghost predicate Enabled(s: State, a: Action)
    requires Shaped(s)
  {
    match a
    case Poll(src, burst, rt) =>
      && src < MAX_VHOSTS && |burst| <= MAX_PKT_BURST
      && (forall p :: p in burst ==> p.source == src)
      && (forall d :: 0 <= d < MAX_VHOSTS ==> s.pending[src][d] == [])
    case Flush(src, dst, k) => src < MAX_VHOSTS && dst < MAX_VHOSTS && k <= |s.pending[src][dst]|
    case Inject(dst, pkts) => dst < MAX_VHOSTS && forall p :: p in pkts ==> p.source >= MAX_VHOSTS
    case Send(dst, gate, accept, now) =>
      dst < MAX_VHOSTS && VhostTx.Answers(s.vm[dst], VisitOf(s, dst, gate, accept, now))
  }

  /** The tail of a retry that the guest did not take. */
  ghost function Refused(vm: VhostTx.Vm<Packet>, e: VhostTx.Effect<Packet>): seq<Packet> {
    if e.attempted && vm.retry != [] && |e.delivered| <= |e.offered| then e.offered[|e.delivered|..] else []
  }

  ghost function Step(s: State, a: Action): (s': State)
    requires Shaped(s) && Enabled(s, a)
    ensures Shaped(s')
    ensures a.Flush? ==>
      s'.ring[a.dst] == s.ring[a.dst] + s.pending[a.src][a.dst][..a.accepted] && s'.pending[a.src][a.dst] == []
    ensures a.Inject? ==> s'.ring[a.dst] == s.ring[a.dst] + a.pkts
  {
    match a
    case Poll(src, burst, rt) =>
      s.(polled := s.polled[src := s.polled[src] + burst],
         pending := s.pending[src := seq(MAX_VHOSTS, d requires 0 <= d => Routed(rt, burst, ToVm(d)))])
    case Flush(src, dst, k) =>
      var all := s.pending[src][dst];
      s.(ring := s.ring[dst := s.ring[dst] + all[..k]],
         entered := s.entered[dst := s.entered[dst] + all[..k]],
         overflow := s.overflow[src := s.overflow[src][dst := s.overflow[src][dst] + all[k..]]],
         pending := s.pending[src := s.pending[src][dst := []]])
    case Inject(dst, pkts) =>
      s.(ring := s.ring[dst := s.ring[dst] + pkts], entered := s.entered[dst := s.entered[dst] + pkts])
    case Send(dst, gate, accept, now) =>
      var (vm', e) := VhostTx.Step(s.vm[dst], VisitOf(s, dst, gate, accept, now));
      s.(vm := s.vm[dst := vm'],
         ring := s.ring[dst := s.ring[dst][|e.taken|..]],
         delivered := s.delivered[dst := s.delivered[dst] + e.delivered],
         dropped := s.dropped[dst := s.dropped[dst] + Refused(s.vm[dst], e)])
  }

  /** What `dst` has received or may still receive, in the order it would. */
  ghost function Line(s: State, dst: nat): seq<Packet>
    requires Shaped(s) && dst < MAX_VHOSTS
  {
    s.delivered[dst] + s.vm[dst].retry + s.ring[dst]
  }

  ghost predicate PairOk(s: State, src: nat, dst: nat)
    requires Shaped(s) && src < MAX_VHOSTS && dst < MAX_VHOSTS
  {
    && (forall p :: p in s.pending[src][dst] ==> p.source == src)
    && InOrder(From(Line(s, dst), src) + s.pending[src][dst], s.polled[src])
  }

  ghost predicate Inv(s: State) {
    && Shaped(s)
    && forall src, dst :: 0 <= src < MAX_VHOSTS && 0 <= dst < MAX_VHOSTS ==> PairOk(s, src, dst)
  }

  lemma PollKeeps(s: State, a: Action, src: nat, dst: nat)
    requires Shaped(s) && a.Poll? && Enabled(s, a) && src < MAX_VHOSTS && dst < MAX_VHOSTS && PairOk(s, src, dst)
    ensures PairOk(Step(s, a), src, dst)
  {
    if src == a.src {
      var line := From(Line(s, dst), src);
      assert line + s.pending[src][dst] == line;
      RoutedInOrder(a.rt, a.burst, ToVm(dst));
      InOrderConcat(line, s.polled[src], Routed(a.rt, a.burst, ToVm(dst)), a.burst);
    }
  }

  lemma KeepPrefix(line: seq<Packet>, all: seq<Packet>, k: nat, b: seq<Packet>)
    requires k <= |all| && InOrder(line + all, b)
    ensures InOrder(line + all[..k] + [], b)
  {
    DropMiddle(line + all[..k], all[k..], []);
    assert line + all[..k] + all[k..] + [] == line + all;
    InOrderTrans(line + all[..k] + [], line + all, b);
  }

  lemma FlushLine(s: State, a: Action, src: nat)
    requires Shaped(s) && a.Flush? && Enabled(s, a) && PairOk(s, a.src, a.dst)
    ensures var enq := s.pending[a.src][a.dst][..a.accepted];
      From(Line(Step(s, a), a.dst), src) == From(Line(s, a.dst), src) + if src == a.src then enq else []
  {
    var all := s.pending[a.src][a.dst];
    var enq := all[..a.accepted];
    assert forall p :: p in enq ==> p in all;
    assert Line(Step(s, a), a.dst) == Line(s, a.dst) + enq;
    FromConcat(Line(s, a.dst), enq, src);
    FromUniform(enq, a.src, src);
  }

  lemma FlushKeeps(s: State, a: Action, src: nat, dst: nat)
    requires Shaped(s) && a.Flush? && Enabled(s, a) && src < MAX_VHOSTS && dst < MAX_VHOSTS
    requires PairOk(s, src, dst) && PairOk(s, a.src, dst)
    ensures PairOk(Step(s, a), src, dst)
  {
    if dst == a.dst {
      FlushLine(s, a, src);
      var line := From(Line(s, dst), src);
      if src == a.src {
        KeepPrefix(line, s.pending[src][dst], a.accepted, s.polled[src]);
      } else {
        assert line + [] == line;
      }
    }
  }

  lemma InjectKeeps(s: State, a: Action, src: nat, dst: nat)
    requires Shaped(s) && a.Inject? && Enabled(s, a) && src < MAX_VHOSTS && dst < MAX_VHOSTS && PairOk(s, src, dst)
    ensures PairOk(Step(s, a), src, dst)
  {
    if dst == a.dst {
      assert Line(Step(s, a), dst) == Line(s, dst) + a.pkts;
      FromConcat(Line(s, dst), a.pkts, src);
      FromForeign(a.pkts, src);
      assert From(Line(Step(s, a), dst), src) == From(Line(s, dst), src);
    }
  }

  /** A retry keeps its accepted prefix on the line and loses the rest. */
  lemma ResendLine(delivered: seq<Packet>, retry: seq<Packet>, ring: seq<Packet>, n: nat)
    requires n <= |retry|
    ensures delivered + retry + ring == (delivered + retry[..n]) + retry[n..] + ring
  {
    assert retry == retry[..n] + retry[n..];
  }

  /** A fresh burst only moves along the line. */
  lemma SendLine(delivered: seq<Packet>, ring: seq<Packet>, k: nat, n: nat)
    requires n <= k <= |ring|
    ensures delivered + ring[..k][..n] + ring[..k][n..] + ring[k..] == delivered + ring
  {
    assert ring[..k][..n] + ring[..k][n..] == ring[..k];
    assert ring[..k] + ring[k..] == ring;
  }

  /** A visit moves packets along the line or drops the tail of the retry. */
  lemma VisitLine(delivered: seq<Packet>, vm: VhostTx.Vm<Packet>, v: VhostTx.Visit<Packet>)
      returns (x: seq<Packet>, y: seq<Packet>, z: seq<Packet>)
    requires VhostTx.Answers(vm, v)
    ensures delivered + vm.retry + v.available == x + y + z
    ensures var (vm', e) := VhostTx.Step(vm, v);
      |e.taken| <= |v.available| && delivered + e.delivered + vm'.retry + v.available[|e.taken|..] == x + z
  {
    var n := VhostTx.Taken(v);
    if VhostTx.Gated(vm, v) {
      x, y, z := delivered + vm.retry, [], v.available;
    } else if vm.retry != [] {
      x, y, z := delivered + vm.retry[..n], vm.retry[n..], v.available;
      ResendLine(delivered, vm.retry, v.available, n);
    } else {
      x, y, z := delivered, [], v.available;
      var offer := VhostTx.Burst(v.available);
      assert offer == v.available[..|offer|];
      SendLine(delivered, v.available, |offer|, n);
    }
  }

  lemma FromDropMiddle(x: seq<Packet>, y: seq<Packet>, z: seq<Packet>, src: nat, tail: seq<Packet>)
    ensures InOrder(From(x + z, src) + tail, From(x + y + z, src) + tail)
  {
    FromConcat(x, z, src);
    FromConcat(x + y, z, src);
    FromConcat(x, y, src);
    DropMiddle(From(x, src), From(y, src), From(z, src));
    InOrderRefl(tail);
    InOrderConcat(From(x + z, src), From(x + y + z, src), tail, tail);
  }

  lemma SendKeeps(s: State, a: Action, src: nat, dst: nat)
    requires Shaped(s) && a.Send? && Enabled(s, a) && src < MAX_VHOSTS && dst < MAX_VHOSTS && PairOk(s, src, dst)
    ensures PairOk(Step(s, a), src, dst)
  {
    if dst == a.dst {
      var s' := Step(s, a);
      var x, y, z := VisitLine(s.delivered[dst], s.vm[dst], VisitOf(s, dst, a.gate, a.accept, a.now));
      assert Line(s, dst) == x + y + z && Line(s', dst) == x + z;
      FromDropMiddle(x, y, z, src, s.pending[src][dst]);
      InOrderTrans(From(Line(s', dst), src) + s.pending[src][dst],
                   From(Line(s, dst), src) + s.pending[src][dst], s.polled[src]);
    }
  }

  lemma StepKeepsInv(s: State, a: Action)
    requires Inv(s) && Enabled(s, a)
    ensures Inv(Step(s, a))
  {
    forall src, dst | 0 <= src < MAX_VHOSTS && 0 <= dst < MAX_VHOSTS
      ensures PairOk(Step(s, a), src, dst)
    {
      assert PairOk(s, src, dst);
      match a
      case Poll(_, _, _) => PollKeeps(s, a, src, dst);
      case Flush(u, _, _) =>
        assert PairOk(s, u, dst);
        FlushKeeps(s, a, src, dst);
      case Inject(_, _) => InjectKeeps(s, a, src, dst);
      case Send(_, _, _, _) => SendKeeps(s, a, src, dst);
    }
  }

  function Initial(): State {
    State(seq(MAX_VHOSTS, _ => []), seq(MAX_VHOSTS, _ => seq(MAX_VHOSTS, _ => [])),
          seq(MAX_VHOSTS, _ => seq(MAX_VHOSTS, _ => [])), seq(MAX_VHOSTS, _ => []),
          seq(MAX_VHOSTS, _ => VhostTx.InitialVm()), seq(MAX_VHOSTS, _ => []), seq(MAX_VHOSTS, _ => []),
          seq(MAX_VHOSTS, _ => []))
  }

  lemma InitialInv()
    ensures Inv(Initial())
  {
    var s := Initial();
    forall src, dst | 0 <= src < MAX_VHOSTS && 0 <= dst < MAX_VHOSTS
      ensures PairOk(s, src, dst)
    {
      assert Line(s, dst) == [];
      assert From(Line(s, dst), src) + s.pending[src][dst] == [];
      InOrderEmpty([]);
    }
  }

  ghost predicate Legal(s: State, run: seq<Action>)
    requires Shaped(s)
    decreases |run|
  {
    run == [] || (Enabled(s, run[0]) && Legal(Step(s, run[0]), run[1..]))
  }

  ghost function After(s: State, run: seq<Action>): (s': State)
    requires Shaped(s) && Legal(s, run)
    ensures Shaped(s')
    decreases |run|
  {
    if run == [] then s else After(Step(s, run[0]), run[1..])
  }

  lemma {:induction false} RunKeepsInv(s: State, run: seq<Action>)
    requires Inv(s) && Legal(s, run)
    ensures Inv(After(s, run))
    decreases |run|
  {
    if run != [] {
      StepKeepsInv(s, run[0]);
      RunKeepsInv(Step(s, run[0]), run[1..]);
    }
  }

  lemma PrefixInOrder(d: seq<Packet>, rest: seq<Packet>, tail: seq<Packet>, src: nat, polled: seq<Packet>)
    requires InOrder(From(d + rest, src) + tail, polled)
    ensures InOrder(From(d, src), polled)
  {
    FromConcat(d, rest, src);
    var x, y := From(d, src), From(rest, src) + tail;
    DropMiddle(x, y, []);
    assert x + [] == x && x + y + [] == From(d + rest, src) + tail;
    InOrderTrans(x, From(d + rest, src) + tail, polled);
  }

  /** In every run, what a VM has received from another VM is an in-order
      subsequence of what was polled from that VM. */
  lemma DeliveryInOrder(run: seq<Action>, src: nat, dst: nat)
    requires Legal(Initial(), run) && src < MAX_VHOSTS && dst < MAX_VHOSTS
    ensures var s := After(Initial(), run);
      InOrder(From(s.delivered[dst], src), s.polled[src])
  {
    InitialInv();
    RunKeepsInv(Initial(), run);
    var s := After(Initial(), run);
    assert PairOk(s, src, dst);
    var rest := s.vm[dst].retry + s.ring[dst];
    assert Line(s, dst) == s.delivered[dst] + rest;
    PrefixInOrder(s.delivered[dst], rest, s.pending[src][dst], src, s.polled[src]);
  }

  // ----- Nothing disappears on the way

  /** One send, by the guest's answer: past the backoff the guest takes the first `n`
      packets of the retry or of the first 64 in the ring; the rest of a fresh burst
      waits, the rest of a retry is dropped. */
  lemma SendMeaning(s: State, dst: nat, gate: nat, accept: int, now: nat)
    requires Shaped(s) && Enabled(s, Send(dst, gate, accept, now))
    ensures var s' := Step(s, Send(dst, gate, accept, now));
      var vm, ring := s.vm[dst], s.ring[dst];
      var n: nat := if accept > 0 then accept else 0;
      var offer := if vm.retry != [] then vm.retry else ring[..VhostTx.Least(|ring|, 64)];
      && s'.entered == s.entered && s'.polled == s.polled && s'.pending == s.pending
      && (vm.blocked && gate < vm.until ==>
            s'.vm[dst] == vm && s'.ring[dst] == ring && s'.delivered[dst] == s.delivered[dst]
            && s'.dropped[dst] == s.dropped[dst])
      && (!(vm.blocked && gate < vm.until) ==>
            && n <= |offer| && s'.delivered[dst] == s.delivered[dst] + offer[..n]
            && s'.vm[dst].retry == (if vm.retry != [] then [] else offer[n..])
            && s'.ring[dst] == (if vm.retry != [] then ring else ring[|offer|..])
            && s'.dropped[dst] == s.dropped[dst] + if vm.retry != [] then offer[n..] else [])
  {
    VhostTx.VisitMeaning(s.vm[dst], VisitOf(s, dst, gate, accept, now));
  }

  /** Everything that entered a VM's ring was delivered, is waiting for its retry or in
      the ring, or was dropped by a refused retry. */
  ghost predicate Accounted(s: State, dst: nat)
    requires Shaped(s) && dst < MAX_VHOSTS
  {
    multiset(s.entered[dst]) == multiset(Line(s, dst)) + multiset(s.dropped[dst])
  }

  lemma AppendKeeps(entered: seq<Packet>, line: seq<Packet>, dropped: seq<Packet>, more: seq<Packet>)
    requires multiset(entered) == multiset(line) + multiset(dropped)
    ensures multiset(entered + more) == multiset(line + more) + multiset(dropped)
  {
  }

  lemma DropKeeps(entered: seq<Packet>, x: seq<Packet>, y: seq<Packet>, z: seq<Packet>, dropped: seq<Packet>)
    requires multiset(entered) == multiset(x + y + z) + multiset(dropped)
    ensures multiset(entered) == multiset(x + z) + multiset(dropped + y)
  {
  }

  /** A send moves packets along the line and drops exactly the refused tail. */
  lemma SendSplits(s: State, a: Action) returns (x: seq<Packet>, y: seq<Packet>, z: seq<Packet>)
    requires Shaped(s) && a.Send? && Enabled(s, a)
    ensures Line(s, a.dst) == x + y + z && Line(Step(s, a), a.dst) == x + z
    ensures Step(s, a).dropped[a.dst] == s.dropped[a.dst] + y
  {
    var vm := s.vm[a.dst];
    if vm.blocked && a.gate < vm.until {
      SendMeaning(s, a.dst, a.gate, a.accept, a.now);
      x, y, z := Line(s, a.dst), [], [];
    } else if vm.retry != [] {
      x, y, z := RetrySplits(s, a);
    } else {
      x, y, z := FreshSplits(s, a);
    }
  }

  lemma RetrySplits(s: State, a: Action) returns (x: seq<Packet>, y: seq<Packet>, z: seq<Packet>)
    requires Shaped(s) && a.Send? && Enabled(s, a)
    requires !(s.vm[a.dst].blocked && a.gate < s.vm[a.dst].until) && s.vm[a.dst].retry != []
    ensures Line(s, a.dst) == x + y + z && Line(Step(s, a), a.dst) == x + z
    ensures Step(s, a).dropped[a.dst] == s.dropped[a.dst] + y
  {
    SendMeaning(s, a.dst, a.gate, a.accept, a.now);
    x, y, z := OpenSplits(s.delivered[a.dst], s.vm[a.dst].retry, s.ring[a.dst], if a.accept > 0 then a.accept else 0);
  }

  lemma FreshSplits(s: State, a: Action) returns (x: seq<Packet>, y: seq<Packet>, z: seq<Packet>)
    requires Shaped(s) && a.Send? && Enabled(s, a)
    requires !(s.vm[a.dst].blocked && a.gate < s.vm[a.dst].until) && s.vm[a.dst].retry == []
    ensures Line(s, a.dst) == x + y + z && Line(Step(s, a), a.dst) == x + z
    ensures Step(s, a).dropped[a.dst] == s.dropped[a.dst] + y
  {
    SendMeaning(s, a.dst, a.gate, a.accept, a.now);
    x, y, z := OpenSplits(s.delivered[a.dst], [], s.ring[a.dst], if a.accept > 0 then a.accept else 0);
  }

  lemma OpenSplits(delivered: seq<Packet>, retry: seq<Packet>, ring: seq<Packet>, n: nat)
      returns (x: seq<Packet>, y: seq<Packet>, z: seq<Packet>)
    requires n <= if retry != [] then |retry| else VhostTx.Least(|ring|, 64)
    ensures delivered + retry + ring == x + y + z
    ensures retry != [] ==> y == retry[n..] && delivered + retry[..n] + [] + ring == x + z
    ensures retry == [] ==>
      var k := VhostTx.Least(|ring|, 64);
      y == [] && delivered + ring[..k][..n] + ring[..k][n..] + ring[k..] == x + z
  {
    if retry != [] {
      x, y, z := delivered + retry[..n], retry[n..], ring;
      ResendLine(delivered, retry, ring, n);
    } else {
      x, y, z := delivered + ring, [], [];
      SendLine(delivered, ring, VhostTx.Least(|ring|, 64), n);
    }
  }

  lemma StepAccounts(s: State, a: Action, dst: nat)
    requires Shaped(s) && Enabled(s, a) && dst < MAX_VHOSTS && Accounted(s, dst)
    ensures Accounted(Step(s, a), dst)
  {
    var s' := Step(s, a);
    match a
    case Poll(_, _, _) => assert Line(s', dst) == Line(s, dst);
    case Flush(src, d, k) =>
      if d == dst {
        var enq := s.pending[src][dst][..k];
        assert Line(s', dst) == Line(s, dst) + enq;
        AppendKeeps(s.entered[dst], Line(s, dst), s.dropped[dst], enq);
      }
    case Inject(d, pkts) =>
      if d == dst {
        assert Line(s', dst) == Line(s, dst) + pkts;
        AppendKeeps(s.entered[dst], Line(s, dst), s.dropped[dst], pkts);
      }
    case Send(d, _, _, _) =>
      if d == dst {
        var x, y, z := SendSplits(s, a);
        DropKeeps(s.entered[dst], x, y, z, s.dropped[dst]);
      }
  }

  /** The packets for `dst` among those a run polls from `src`, from its actions alone. */
  ghost function Addressed(run: seq<Action>, src: nat, dst: nat): seq<Packet>
    decreases |run|
  {
    if run == [] then []
    else Polled(run[0], src, dst) + Addressed(run[1..], src, dst)
  }

  ghost function Polled(a: Action, src: nat, dst: nat): seq<Packet> {
    if a.Poll? && a.src == src then Routed(a.rt, a.burst, ToVm(dst)) else []
  }

  /** Everything polled from `src` for `dst` entered the ring, is still in the bucket or
      was lost to a full ring. */
  ghost predicate Forwarded(s: State, sofar: seq<Packet>, src: nat, dst: nat)
    requires Shaped(s) && src < MAX_VHOSTS && dst < MAX_VHOSTS
  {
    && (forall p :: p in s.pending[src][dst] ==> p.source == src)
    && multiset(sofar) == multiset(From(s.entered[dst], src)) + multiset(s.pending[src][dst] + s.overflow[src][dst])
  }

  lemma FlushBalance(e: seq<Packet>, all: seq<Packet>, o: seq<Packet>, k: nat)
    requires k <= |all|
    ensures multiset(e + all[..k]) + multiset([] + (o + all[k..])) == multiset(e) + multiset(all + o)
  {
    assert all == all[..k] + all[k..];
    assert [] + (o + all[k..]) == o + all[k..];
  }

  lemma FlushForwards(s: State, u: nat, dst: nat, k: nat, src: nat)
    requires Shaped(s) && Enabled(s, Flush(u, dst, k)) && src < MAX_VHOSTS
    requires forall p :: p in s.pending[u][dst] ==> p.source == u
    ensures var enq := s.pending[u][dst][..k];
      From(s.entered[dst] + enq, src) == From(s.entered[dst], src) + if u == src then enq else []
  {
    var all := s.pending[u][dst];
    var enq := all[..k];
    assert forall p :: p in enq ==> p in all;
    FromConcat(s.entered[dst], enq, src);
    FromUniform(enq, u, src);
  }

  lemma FlushStep(s: State, a: Action, sofar: seq<Packet>, src: nat, dst: nat)
    requires Shaped(s) && a.Flush? && Enabled(s, a) && src < MAX_VHOSTS && dst < MAX_VHOSTS
    requires Forwarded(s, sofar, src, dst) && forall p :: p in s.pending[a.src][dst] ==> p.source == a.src
    ensures Forwarded(Step(s, a), sofar, src, dst)
  {
    if a.dst == dst {
      FlushForwards(s, a.src, dst, a.accepted, src);
      var e := From(s.entered[dst], src);
      if a.src == src {
        FlushBalance(e, s.pending[src][dst], s.overflow[src][dst], a.accepted);
      } else {
        assert e + [] == e;
      }
    }
  }

  lemma PollStep(s: State, a: Action, sofar: seq<Packet>, src: nat, dst: nat)
    requires Shaped(s) && a.Poll? && Enabled(s, a) && src < MAX_VHOSTS && dst < MAX_VHOSTS
    requires Forwarded(s, sofar, src, dst)
    ensures var mine := if a.src == src then Routed(a.rt, a.burst, ToVm(dst)) else [];
      Forwarded(Step(s, a), sofar + mine, src, dst)
  {
    if a.src == src {
      RoutedInOrder(a.rt, a.burst, ToVm(dst));
      assert s.pending[src][dst] + s.overflow[src][dst] == s.overflow[src][dst];
    } else {
      assert sofar + [] == sofar;
    }
  }

  lemma InjectStep(s: State, a: Action, sofar: seq<Packet>, src: nat, dst: nat)
    requires Shaped(s) && a.Inject? && Enabled(s, a) && src < MAX_VHOSTS && dst < MAX_VHOSTS
    requires Forwarded(s, sofar, src, dst)
    ensures Forwarded(Step(s, a), sofar, src, dst)
  {
    if a.dst == dst {
      FromConcat(s.entered[dst], a.pkts, src);
      FromForeign(a.pkts, src);
      assert From(s.entered[dst], src) + [] == From(s.entered[dst], src);
    }
  }

  lemma StepForwards(s: State, a: Action, sofar: seq<Packet>, src: nat, dst: nat)
    requires Shaped(s) && Enabled(s, a) && src < MAX_VHOSTS && dst < MAX_VHOSTS && Forwarded(s, sofar, src, dst)
    requires a.Flush? ==> forall p :: p in s.pending[a.src][dst] ==> p.source == a.src
    ensures Forwarded(Step(s, a), sofar + Polled(a, src, dst), src, dst)
  {
    assert sofar + [] == sofar;
    match a
    case Poll(_, _, _) => PollStep(s, a, sofar, src, dst);
    case Flush(_, _, _) => FlushStep(s, a, sofar, src, dst);
    case Inject(_, _) => InjectStep(s, a, sofar, src, dst);
    case Send(_, _, _, _) =>
  }

  lemma {:induction false} RunAccounts(s: State, run: seq<Action>, dst: nat)
    requires Shaped(s) && Legal(s, run) && dst < MAX_VHOSTS && Accounted(s, dst)
    ensures Accounted(After(s, run), dst)
    decreases |run|
  {
    if run != [] {
      StepAccounts(s, run[0], dst);
      RunAccounts(Step(s, run[0]), run[1..], dst);
    }
  }

  /** Every bucket of a core holds packets of its own VM. */
  ghost predicate OwnBuckets(s: State, dst: nat)
    requires Shaped(s) && dst < MAX_VHOSTS
  {
    forall u, p :: 0 <= u < MAX_VHOSTS && p in s.pending[u][dst] ==> p.source == u
  }

  lemma StepOwnBuckets(s: State, a: Action, dst: nat)
    requires Shaped(s) && Enabled(s, a) && dst < MAX_VHOSTS && OwnBuckets(s, dst)
    ensures OwnBuckets(Step(s, a), dst)
  {
    if a.Poll? {
      RoutedInOrder(a.rt, a.burst, ToVm(dst));
    }
  }

  lemma Reassociate(a: seq<Packet>, b: seq<Packet>, c: seq<Packet>)
    ensures (a + b) + c == a + (b + c)
  {
  }

  lemma {:induction false} RunForwards(s: State, run: seq<Action>, sofar: seq<Packet>, src: nat, dst: nat)
    requires Shaped(s) && Legal(s, run) && src < MAX_VHOSTS && dst < MAX_VHOSTS
    requires OwnBuckets(s, dst) && Forwarded(s, sofar, src, dst)
    ensures Forwarded(After(s, run), sofar + Addressed(run, src, dst), src, dst)
    decreases |run|
  {
    if run == [] {
      assert sofar + [] == sofar;
    } else {
      var a := run[0];
      StepOwnBuckets(s, a, dst);
      StepForwards(s, a, sofar, src, dst);
      RunForwards(Step(s, a), run[1..], sofar + Polled(a, src, dst), src, dst);
      Reassociate(sofar, Polled(a, src, dst), Addressed(run[1..], src, dst));
    }
  }

  /** In every run from start-up each packet has one place: what was polled from one VM
      for another entered its ring, is in the bucket or was lost to a full ring; and
      what entered a ring was delivered, waits for its retry, is in the ring or was
      dropped by a refused retry. */
  lemma NothingDisappears(run: seq<Action>, src: nat, dst: nat)
    requires Legal(Initial(), run) && src < MAX_VHOSTS && dst < MAX_VHOSTS
    ensures var s := After(Initial(), run);
      && multiset(Addressed(run, src, dst))
         == multiset(From(s.entered[dst], src)) + multiset(s.pending[src][dst] + s.overflow[src][dst])
      && multiset(s.entered[dst])
         == multiset(s.delivered[dst] + s.vm[dst].retry + s.ring[dst]) + multiset(s.dropped[dst])
  {
    var s := Initial();
    assert Line(s, dst) == [];
    assert s.pending[src][dst] + s.overflow[src][dst] == [];
    RunAccounts(s, run, dst);
    RunForwards(s, run, [], src, dst);
    assert [] + Addressed(run, src, dst) == Addressed(run, src, dst);
  }

  lemma {:induction false} AfterThree(s: State, a: Action, b: Action, c: Action)
    requires Shaped(s) && Enabled(s, a) && Enabled(Step(s, a), b) && Enabled(Step(Step(s, a), b), c)
    ensures Legal(s, [a, b, c]) && After(s, [a, b, c]) == Step(Step(Step(s, a), b), c)
  {
    var s1 := Step(s, a);
    var s2 := Step(s1, b);
    var s3 := Step(s2, c);
    assert [c][1..] == [] && [b, c][1..] == [c] && [a, b, c][1..] == [b, c];
    assert Legal(s3, []) && After(s3, []) == s3;
    assert Legal(s2, [c]) && After(s2, [c]) == s3;
    assert Legal(s1, [b, c]) && After(s1, [b, c]) == s3;
  }

  /** Through an idle pipeline a burst arrives whole: poll, flush into a ring with room,
      send to a guest that takes everything. */
  lemma BurstArrives(s: State, src: nat, dst: nat, burst: seq<Packet>, rt: Packet -> Route, gate: nat, now: nat)
    requires Shaped(s) && dst < MAX_VHOSTS && Enabled(s, Poll(src, burst, rt))
    requires s.ring[dst] == [] && s.vm[dst].retry == [] && !s.vm[dst].blocked
    ensures var mine := Routed(rt, burst, ToVm(dst));
      var run := [Poll(src, burst, rt), Flush(src, dst, |mine|), Send(dst, gate, |mine|, now)];
      Legal(s, run) && After(s, run).delivered[dst] == s.delivered[dst] + mine
  {
    var mine := Routed(rt, burst, ToVm(dst));
    var s2 := PollAndFlush(s, src, dst, burst, rt);
    SendMeaning(s2, dst, gate, |mine|, now);
    assert mine[..|mine|] == mine;
    AfterThree(s, Poll(src, burst, rt), Flush(src, dst, |mine|), Send(dst, gate, |mine|, now));
  }

  lemma PollAndFlush(s: State, src: nat, dst: nat, burst: seq<Packet>, rt: Packet -> Route) returns (s2: State)
    requires Shaped(s) && dst < MAX_VHOSTS && Enabled(s, Poll(src, burst, rt)) && s.ring[dst] == []
    ensures var mine := Routed(rt, burst, ToVm(dst));
      var s1 := Step(s, Poll(src, burst, rt));
      && Enabled(s1, Flush(src, dst, |mine|)) && s2 == Step(s1, Flush(src, dst, |mine|))
      && Shaped(s2) && s2.ring[dst] == mine && s2.vm == s.vm && s2.delivered == s.delivered && |mine| <= 64
  {
    var mine := Routed(rt, burst, ToVm(dst));
    var s1 := Step(s, Poll(src, burst, rt));
    assert s1.pending[src][dst] == mine;
    s2 := Step(s1, Flush(src, dst, |mine|));
    assert mine[..|mine|] == mine;
  }
}
