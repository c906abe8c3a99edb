/** Sending to VMs with one retry and backoff (src/fast/vhost_tx.c). */
module VhostTx {
  import opened Arith
  import opened Topology

  const BACKOFF_TSC: nat := 100000

  /** What a TX core keeps for one VM. */
  datatype Vm<P> = Vm(blocked: bool, until: nat, retry: seq<P>, pktCount: nat, requeueCount: nat)

  /** One visit of the VM in the loop: the clock at the gate, the head of its ring,
      the guest's answer to the burst it is offered, the clock after that. */
  datatype Visit<P> = Visit(gate: nat, available: seq<P>, accept: int, now: nat)

  /** `attempted`: past the gate; `taken` left the ring; `offered` was handed to
      the guest, which took the prefix `delivered`; `freed` was released. */
  datatype Effect<P> = Effect(attempted: bool, taken: seq<P>, offered: seq<P>, delivered: seq<P>, freed: seq<P>)

  function InitialVm<P>(): Vm<P> { Vm(false, 0, [], 0, 0) }

  function Burst<P>(available: seq<P>): seq<P> {
    if |available| <= MAX_PKT_BURST then available else available[..MAX_PKT_BURST]
  }

  /** The burst a visit offers to the guest. */
  function Offer<P>(vm: Vm<P>, v: Visit<P>): seq<P> {
    if vm.retry != [] then vm.retry else Burst(v.available)
  }

  /** The guest may fail (a negative answer) or take any prefix. */
  predicate Answers<P>(vm: Vm<P>, v: Visit<P>) {
    v.accept <= |Offer(vm, v)|
  }

  predicate Gated<P>(vm: Vm<P>, v: Visit<P>) {
    vm.blocked && v.gate < vm.until
  }

  function Taken<P>(v: Visit<P>): nat {
    if v.accept < 0 then 0 else v.accept
  }

  function Step<P>(vm: Vm<P>, v: Visit<P>): (Vm<P>, Effect<P>)
    requires Answers(vm, v)
  {
    var offer := Offer(vm, v);
    var n := Taken(v);
    if Gated(vm, v) then (vm, Effect(false, [], [], [], []))
    else if vm.retry != [] then
      (Vm(n < |offer|, if n < |offer| then v.now + BACKOFF_TSC else vm.until, [],
          vm.pktCount, (vm.requeueCount + n) % COUNTER32),
       Effect(true, [], offer, offer[..n], offer))
    else if offer == [] then (vm, Effect(true, [], [], [], []))
    else
      (Vm(n < |offer|, if n < |offer| then v.now + BACKOFF_TSC else vm.until, offer[n..],
          (vm.pktCount + n) % COUNTER32, vm.requeueCount),
       Effect(true, offer, offer, offer[..n], offer[..n]))
  }

  // ----- What a visit does with the guest's answer

  function Least(a: nat, b: nat): nat { if a < b then a else b }

  /** Past the backoff a visit offers the pending retry or else up to 64 packets from
      the head of the ring. The guest takes the first `n` of them, none if it fails. A
      fresh burst loses exactly those and the rest becomes the retry; a retry is freed
      whole. A short answer blocks the VM for 100000 cycles, a full one unblocks it. */
  ghost predicate AnsweredBy<P>(vm: Vm<P>, v: Visit<P>, vm': Vm<P>, e: Effect<P>) {
    var n: nat := if v.accept > 0 then v.accept else 0;
    && (e.attempted <==> !(vm.blocked && v.gate < vm.until))
    && (!e.attempted ==> vm' == vm && e.taken == e.offered == e.delivered == e.freed == [])
    && (e.attempted ==>
          && e.offered == (if vm.retry != [] then vm.retry else v.available[..Least(|v.available|, 64)])
          && n <= |e.offered| && e.delivered == e.offered[..n]
          && e.taken == (if vm.retry != [] then [] else e.offered)
          && e.freed == (if vm.retry != [] then e.offered else e.offered[..n])
          && vm'.retry == (if vm.retry != [] then [] else e.offered[n..])
          && vm'.pktCount == (if vm.retry != [] || e.offered == [] then vm.pktCount
                              else (vm.pktCount + n) % COUNTER32)
          && vm'.requeueCount == (if vm.retry != [] then (vm.requeueCount + n) % COUNTER32 else vm.requeueCount)
          && vm'.blocked == (if e.offered == [] then vm.blocked else n < |e.offered|)
          && vm'.until == (if n < |e.offered| then v.now + 100000 else vm.until))
  }

  lemma VisitMeaning<P>(vm: Vm<P>, v: Visit<P>)
    requires Answers(vm, v)
    ensures AnsweredBy(vm, v, Step(vm, v).0, Step(vm, v).1)
  {
    var (vm', e) := Step(vm, v);
    if e.attempted && vm.retry == [] && e.offered == [] {
      assert v.available == [];
    }
  }

  ghost predicate Legal<P>(vm: Vm<P>, run: seq<Visit<P>>)
    decreases |run|
  {
    run == [] || (Answers(vm, run[0]) && Legal(Step(vm, run[0]).0, run[1..]))
  }

  ghost function After<P>(vm: Vm<P>, run: seq<Visit<P>>): Vm<P>
    requires Legal(vm, run)
    decreases |run|
  {
    if run == [] then vm else After(Step(vm, run[0]).0, run[1..])
  }

  // ----- Packet ownership over a run

  /** All packets that left the ring, were released, were offered, with repeats,
      and the sequence the guest received. */
  datatype Ledger<P> = Ledger(taken: multiset<P>, freed: multiset<P>, offered: multiset<P>, delivered: seq<P>)

  ghost function Book<P>(l: Ledger<P>, e: Effect<P>): Ledger<P> {
    Ledger(l.taken + multiset(e.taken), l.freed + multiset(e.freed), l.offered + multiset(e.offered),
           l.delivered + e.delivered)
  }

  ghost function Books<P>(vm: Vm<P>, l: Ledger<P>, run: seq<Visit<P>>): Ledger<P>
    requires Legal(vm, run)
    decreases |run|
  {
    if run == [] then l
    else Books(Step(vm, run[0]).0, Book(l, Step(vm, run[0]).1), run[1..])
  }

  /** The two counters together are the number of packets delivered, modulo 2^32. */
  ghost predicate Counted<P>(vm: Vm<P>, l: Ledger<P>) {
    |l.delivered| % COUNTER32 == (vm.pktCount + vm.requeueCount) % COUNTER32
  }

  ghost predicate Balanced<P>(vm: Vm<P>, l: Ledger<P>) {
    && l.taken == l.freed + multiset(vm.retry)
    && l.offered + multiset(vm.retry) <= l.taken + l.taken
    && multiset(l.delivered) <= l.freed
    && Counted(vm, l)
    && (vm.retry != [] ==> vm.blocked)
    && |vm.retry| <= MAX_PKT_BURST
  }

  lemma SplitMultiset<P>(s: seq<P>, n: nat)
    requires n <= |s|
    ensures multiset(s[..n]) + multiset(s[n..]) == multiset(s)
  {
    assert s[..n] + s[n..] == s;
  }

  lemma OfferedStep<P>(offered: multiset<P>, taken: multiset<P>, retry: multiset<P>,
                       retry': multiset<P>, o: multiset<P>, t: multiset<P>)
    requires offered + retry <= taken + taken
    requires retry' + o <= retry + t + t
    ensures (offered + o) + retry' <= (taken + t) + (taken + t)
  {
    forall p: P
      ensures offered[p] + o[p] + retry'[p] <= 2 * taken[p] + 2 * t[p]
    {
      assert (offered + retry)[p] <= (taken + taken)[p];
      assert (retry' + o)[p] <= (retry + t + t)[p];
    }
  }

  lemma TakenStep<P>(taken: multiset<P>, freed: multiset<P>, retry: multiset<P>,
                     t: multiset<P>, f: multiset<P>, retry': multiset<P>)
    requires taken == freed + retry && retry + t == f + retry'
    ensures taken + t == (freed + f) + retry'
  {
    calc {
      taken + t;
      freed + (retry + t);
      freed + (f + retry');
      (freed + f) + retry';
    }
  }

  lemma DeliveredStep<P>(delivered: seq<P>, d: seq<P>, freed: multiset<P>, f: multiset<P>)
    requires multiset(delivered) <= freed && multiset(d) <= f
    ensures multiset(delivered + d) <= freed + f
  {
    assert multiset(delivered + d) == multiset(delivered) + multiset(d);
  }

  lemma CountMod(d: nat, a: nat, b: nat, n: nat)
    requires d % COUNTER32 == (a + b) % COUNTER32
    ensures (d + n) % COUNTER32 == ((a + n) % COUNTER32 + b) % COUNTER32
    ensures (d + n) % COUNTER32 == (a + (b + n) % COUNTER32) % COUNTER32
  {
    ModPlus(d, n, COUNTER32);
    ModPlus(a + b, n, COUNTER32);
    ModPlus(a + n, b, COUNTER32);
    ModPlus(b + n, a, COUNTER32);
  }

  /** What an attempt must do for the books to stay balanced. */
  lemma AttemptBalanced<P>(vm: Vm<P>, l: Ledger<P>, vm': Vm<P>, e: Effect<P>)
    requires Balanced(vm, l)
    requires multiset(vm.retry) + multiset(e.taken) == multiset(e.freed) + multiset(vm'.retry)
    requires multiset(vm'.retry) + multiset(e.offered) <= multiset(vm.retry) + multiset(e.taken) + multiset(e.taken)
    requires multiset(e.delivered) <= multiset(e.freed)
    requires (|l.delivered| + |e.delivered|) % COUNTER32 == (vm'.pktCount + vm'.requeueCount) % COUNTER32
    requires (vm'.retry != [] ==> vm'.blocked) && |vm'.retry| <= MAX_PKT_BURST
    ensures Balanced(vm', Book(l, e))
  {
    TakenStep(l.taken, l.freed, multiset(vm.retry), multiset(e.taken), multiset(e.freed), multiset(vm'.retry));
    OfferedStep(l.offered, l.taken, multiset(vm.retry), multiset(vm'.retry), multiset(e.offered), multiset(e.taken));
    DeliveredStep(l.delivered, e.delivered, l.freed, multiset(e.freed));
  }

  lemma ResendBalanced<P>(vm: Vm<P>, l: Ledger<P>, v: Visit<P>)
    requires Balanced(vm, l) && Answers(vm, v) && !Gated(vm, v) && vm.retry != []
    ensures Balanced(Step(vm, v).0, Book(l, Step(vm, v).1))
  {
    var (vm', e) := Step(vm, v);
    SplitMultiset(vm.retry, Taken(v));
    CountMod(|l.delivered|, vm.pktCount, vm.requeueCount, Taken(v));
    AttemptBalanced(vm, l, vm', e);
  }

  lemma SendBalanced<P>(vm: Vm<P>, l: Ledger<P>, v: Visit<P>)
    requires Balanced(vm, l) && Answers(vm, v) && !Gated(vm, v) && vm.retry == [] && v.available != []
    ensures Balanced(Step(vm, v).0, Book(l, Step(vm, v).1))
  {
    var (vm', e) := Step(vm, v);
    SplitMultiset(e.offered, Taken(v));
    CountMod(|l.delivered|, vm.pktCount, vm.requeueCount, Taken(v));
    AttemptBalanced(vm, l, vm', e);
  }

  lemma BookNothing<P>(l: Ledger<P>, attempted: bool)
    ensures Book(l, Effect(attempted, [], [], [], [])) == l
  {
  }

  lemma StepBalanced<P>(vm: Vm<P>, l: Ledger<P>, v: Visit<P>)
    requires Balanced(vm, l) && Answers(vm, v)
    ensures Balanced(Step(vm, v).0, Book(l, Step(vm, v).1))
  {
    if Gated(vm, v) || Offer(vm, v) == [] {
      BookNothing(l, Step(vm, v).1.attempted);
    } else if vm.retry != [] {
      ResendBalanced(vm, l, v);
    } else {
      SendBalanced(vm, l, v);
    }
  }

  /** Over every run: what left the ring is exactly what was freed plus what waits
      for its retry; with distinct packets nothing is freed twice; no packet is
      offered more than twice; and the two counters together are the number of
      packets delivered, modulo 2^32. */
  lemma {:induction false} RunBalanced<P>(vm: Vm<P>, l: Ledger<P>, run: seq<Visit<P>>)
    requires Balanced(vm, l) && Legal(vm, run)
    ensures Balanced(After(vm, run), Books(vm, l, run))
    decreases |run|
  {
    if run != [] {
      StepBalanced(vm, l, run[0]);
      RunBalanced(Step(vm, run[0]).0, Book(l, Step(vm, run[0]).1), run[1..]);
    }
  }

  lemma OwnershipOfOne<P>(vm: Vm<P>, l: Ledger<P>, p: P)
    requires Balanced(vm, l) && l.taken[p] <= 1
    ensures l.freed[p] + multiset(vm.retry)[p] == l.taken[p]
    ensures l.freed[p] <= 1 && l.offered[p] <= 2
    ensures p in vm.retry ==> p !in l.freed && l.offered[p] <= 1
  {
    assert (l.freed + multiset(vm.retry))[p] == l.freed[p] + multiset(vm.retry)[p];
    assert (l.offered + multiset(vm.retry))[p] <= (l.taken + l.taken)[p];
  }

  ghost function EmptyLedger<P>(): Ledger<P> {
    Ledger(multiset{}, multiset{}, multiset{}, [])
  }

  /** From start-up, in every run: the books balance, so a packet that was dequeued
      once has been freed at most once and offered at most twice; it is freed or
      waits for its retry, never both. */
  lemma OwnershipFromStart<P>(run: seq<Visit<P>>, p: P)
    requires Legal(InitialVm(), run)
    ensures var vm, l := After(InitialVm(), run), Books(InitialVm(), EmptyLedger(), run);
      && Balanced(vm, l)
      && (l.taken[p] <= 1 ==>
            && l.freed[p] + multiset(vm.retry)[p] == l.taken[p]
            && l.freed[p] <= 1 && l.offered[p] <= 2
            && (p in vm.retry ==> p !in l.freed && l.offered[p] <= 1))
  {
    var vm, l := After(InitialVm(), run), Books(InitialVm(), EmptyLedger(), run);
    assert Balanced(InitialVm(), EmptyLedger<P>());
    RunBalanced(InitialVm(), EmptyLedger(), run);
    if l.taken[p] <= 1 {
      OwnershipOfOne(vm, l, p);
    }
  }

  // ----- The guest's side

  /** An offer to the guest and its answer. */
  datatype Exchange<P> = Exchange(offered: seq<P>, accept: int)

  /** The offers and answers of a run, in order. */
  ghost function Exchanges<P>(vm: Vm<P>, run: seq<Visit<P>>): seq<Exchange<P>>
    requires Legal(vm, run)
    decreases |run|
  {
    if run == [] then []
    else
      var (vm', e) := Step(vm, run[0]);
      (if e.offered != [] then [Exchange(e.offered, run[0].accept)] else []) + Exchanges(vm', run[1..])
  }

  /** What a guest has that took as much of each offer as it answered. */
  ghost function Received<P>(xs: seq<Exchange<P>>): seq<P> {
    if xs == [] then []
    else
      var n := if xs[0].accept < 0 then 0 else Least(xs[0].accept, |xs[0].offered|);
      xs[0].offered[..n] + Received(xs[1..])
  }

  lemma ReceivedCons<P>(x: Exchange<P>, rest: seq<Exchange<P>>, n: nat)
    requires n == (if x.accept < 0 then 0 else x.accept) <= |x.offered|
    ensures Received([x] + rest) == x.offered[..n] + Received(rest)
  {
    assert ([x] + rest)[1..] == rest;
  }

  lemma OfferAnswered<P>(vm: Vm<P>, v: Visit<P>)
    requires Answers(vm, v)
    ensures var e := Step(vm, v).1;
      var n: nat := if v.accept < 0 then 0 else v.accept;
      if e.offered == [] then e.delivered == [] else n <= |e.offered| && e.delivered == e.offered[..n]
  {
    VisitMeaning(vm, v);
  }

  lemma DeliveredOnce<P>(vm: Vm<P>, run: seq<Visit<P>>)
    requires Legal(vm, run) && run != []
    ensures var (vm', e) := Step(vm, run[0]);
      Received(Exchanges(vm, run)) == e.delivered + Received(Exchanges(vm', run[1..]))
  {
    var (vm', e) := Step(vm, run[0]);
    var rest := Exchanges(vm', run[1..]);
    OfferAnswered(vm, run[0]);
    if e.offered != [] {
      ReceivedCons(Exchange(e.offered, run[0].accept), rest, if run[0].accept < 0 then 0 else run[0].accept);
    } else {
      assert Exchanges(vm, run) == rest;
    }
  }

  /** Over every run the delivered packets are those the guest took of its offers, in
      that order. */
  lemma {:induction false} DeliveredIsReceived<P>(vm: Vm<P>, l: Ledger<P>, run: seq<Visit<P>>)
    requires Legal(vm, run)
    ensures Books(vm, l, run).delivered == l.delivered + Received(Exchanges(vm, run))
    decreases |run|
  {
    if run != [] {
      var (vm', e) := Step(vm, run[0]);
      DeliveredOnce(vm, run);
      DeliveredIsReceived(vm', Book(l, e), run[1..]);
      Reassociate(l.delivered, e.delivered, Received(Exchanges(vm', run[1..])));
    } else {
      assert l.delivered + [] == l.delivered;
    }
  }

  lemma Reassociate<P>(a: seq<P>, b: seq<P>, c: seq<P>)
    ensures (a + b) + c == a + (b + c)
  {
  }

  /** From start-up the two counters together are the number of packets the guest took,
      modulo 2^32, and the delivered sequence is what it took. */
  lemma CountsAreReceived<P>(run: seq<Visit<P>>)
    requires Legal(InitialVm(), run)
    ensures var vm, got := After(InitialVm(), run), Received(Exchanges(InitialVm(), run));
      && Books(InitialVm(), EmptyLedger(), run).delivered == got
      && Counted(vm, Books(InitialVm(), EmptyLedger(), run))
  {
    CountsFromStart(run);
    DeliveredIsReceived(InitialVm(), EmptyLedger(), run);
    EmptyPlus(Received(Exchanges(InitialVm(), run)));
  }

  lemma EmptyPlus<P>(s: seq<P>)
    ensures EmptyLedger<P>().delivered + s == s
  {
  }

  lemma CountsFromStart<P>(run: seq<Visit<P>>)
    requires Legal(InitialVm(), run)
    ensures Counted(After(InitialVm(), run), Books(InitialVm(), EmptyLedger(), run))
  {
    BalancedFromStart(run);
  }

  lemma BalancedFromStart<P>(run: seq<Visit<P>>)
    requires Legal(InitialVm(), run)
    ensures Balanced(After(InitialVm(), run), Books(InitialVm(), EmptyLedger(), run))
  {
    assert Balanced(InitialVm(), EmptyLedger<P>());
    RunBalanced(InitialVm(), EmptyLedger(), run);
  }

  /** The number of visits at the start of a run that the backoff turns away. */
  ghost function TurnedAway<P>(vm: Vm<P>, run: seq<Visit<P>>): (k: nat)
    ensures k <= |run| && (forall i :: 0 <= i < k ==> Gated(vm, run[i]))
    ensures k < |run| ==> !Gated(vm, run[k])
    decreases |run|
  {
    if run == [] || !Gated(vm, run[0]) then 0 else 1 + TurnedAway(vm, run[1..])
  }

  /** Over any run that starts with a retry pending: nothing is dequeued or offered
      until the backoff ends, and the first attempt offers exactly the retry, frees
      all of it and dequeues nothing. */
  lemma {:induction false} RetryFirst<P>(vm: Vm<P>, run: seq<Visit<P>>, l: Ledger<P>)
    requires Legal(vm, run) && vm.retry != []
    ensures var k := TurnedAway(vm, run);
      && Legal(vm, run[..k]) && After(vm, run[..k]) == vm && Books(vm, l, run[..k]) == l
      && (k < |run| ==>
            && Answers(vm, run[k])
            && var (vm', e) := Step(vm, run[k]);
               e.attempted && e.taken == [] && e.offered == e.freed == vm.retry && vm'.retry == [])
    decreases |run|
  {
    var k := TurnedAway(vm, run);
    if k > 0 {
      assert Step(vm, run[0]).0 == vm;
      assert Book(l, Step(vm, run[0]).1) == l;
      RetryFirst(vm, run[1..], l);
      assert run[..k][1..] == run[1..][..k - 1];
    }
  }

  // ----- Backoff

  predicate Short<P>(vm: Vm<P>, v: Visit<P>)
    requires Answers(vm, v)
  {
    var e := Step(vm, v).1;
    e.attempted && |e.delivered| < |e.offered|
  }

  lemma {:induction false} GatedUnchanged<P>(vm: Vm<P>, run: seq<Visit<P>>)
    requires Legal(vm, run)
    requires forall i :: 0 <= i < |run| ==> Gated(vm, run[i])
    ensures After(vm, run) == vm
    decreases |run|
  {
    if run != [] {
      assert Gated(vm, run[0]);
      assert forall i :: 0 <= i < |run| - 1 ==> run[1..][i] == run[i + 1];
      GatedUnchanged(vm, run[1..]);
    }
  }

  /** After a short send (or retry) every later visit is turned away until one
      whose clock is at least BACKOFF_TSC past the clock read at the short send,
      and that one is the next attempt. */
  lemma BackoffHolds<P>(vm: Vm<P>, v: Visit<P>, run: seq<Visit<P>>, next: Visit<P>)
    requires Answers(vm, v) && Short(vm, v)
    requires Legal(Step(vm, v).0, run)
    requires forall i :: 0 <= i < |run| ==> run[i].gate < v.now + BACKOFF_TSC
    requires Answers(After(Step(vm, v).0, run), next)
    ensures After(Step(vm, v).0, run) == Step(vm, v).0
    ensures Step(After(Step(vm, v).0, run), next).1.attempted <==> next.gate >= v.now + BACKOFF_TSC
  {
    var blocked := Step(vm, v).0;
    assert blocked.blocked && blocked.until == v.now + BACKOFF_TSC;
    GatedUnchanged(blocked, run);
  }

  // ----- The TX core's context

  class TxCtx<P(0)> {
    const retryPkts: array2<P>
    const retryCnts: array<nat>
    const blocked: array<bool>
    const until: array<nat>
    const pktCount: array<nat>
    const requeueCount: array<nat>

    ghost predicate Valid()
      reads retryPkts, retryCnts
    {
      && retryCnts != until && retryCnts != pktCount && retryCnts != requeueCount
      && until != pktCount && until != requeueCount && pktCount != requeueCount
      && retryPkts.Length0 == MAX_VHOSTS && retryPkts.Length1 == MAX_PKT_BURST
      && retryCnts.Length == blocked.Length == until.Length == MAX_VHOSTS
      && pktCount.Length == requeueCount.Length == MAX_VHOSTS
      && forall i :: 0 <= i < MAX_VHOSTS ==> retryCnts[i] <= MAX_PKT_BURST
    }

    ghost function Retry(vid: nat): (r: seq<P>)
      requires Valid() && vid < MAX_VHOSTS
      reads retryPkts, retryCnts
      ensures |r| == retryCnts[vid]
      ensures forall i :: 0 <= i < |r| ==> r[i] == retryPkts[vid, i]
    {
      var n := retryCnts[vid];
      seq(n, i requires 0 <= i < n <= retryPkts.Length1 && vid < retryPkts.Length0 reads retryPkts => retryPkts[vid, i])
    }

    ghost function View(vid: nat): Vm<P>
      requires Valid() && vid < MAX_VHOSTS
      reads retryPkts, retryCnts, blocked, until, pktCount, requeueCount
    {
      Vm(blocked[vid], until[vid], Retry(vid), pktCount[vid], requeueCount[vid])
    }

    constructor ()
      ensures Valid()
      ensures forall vid :: 0 <= vid < MAX_VHOSTS ==> View(vid) == InitialVm()
      ensures forall vid :: 0 <= vid < MAX_VHOSTS ==>
        !blocked[vid] && retryCnts[vid] == pktCount[vid] == requeueCount[vid] == 0
    {
      retryPkts := new P[MAX_VHOSTS, MAX_PKT_BURST];
      retryCnts := new nat[MAX_VHOSTS](_ => 0);
      blocked := new bool[MAX_VHOSTS](_ => false);
      until := new nat[MAX_VHOSTS](_ => 0);
      pktCount := new nat[MAX_VHOSTS](_ => 0);
      requeueCount := new nat[MAX_VHOSTS](_ => 0);
    }

    /** vhost_tx.c:55-102: a fresh burst; what the guest leaves becomes the retry. */
    method Send(vid: nat, pkts: seq<P>, accept: int, now: nat) returns (freed: seq<P>)
      requires Valid() && vid < MAX_VHOSTS && retryCnts[vid] == 0
      requires 0 < |pkts| <= MAX_PKT_BURST && accept <= |pkts|
      modifies retryPkts, retryCnts, blocked, until, pktCount
      ensures Valid()
      ensures var n := if accept < 0 then 0 else accept;
        && freed == pkts[..n]
        && View(vid) == Vm(n < |pkts|, if n < |pkts| then now + BACKOFF_TSC else old(until[vid]), pkts[n..],
                           (old(pktCount[vid]) + n) % COUNTER32, requeueCount[vid])
      ensures forall u :: 0 <= u < MAX_VHOSTS && u != vid ==> View(u) == old(View(u))
    {
      var ret := accept;
      if ret < 0 {
        ret := 0;
      }
      if ret < |pkts| {
        blocked[vid] := true;
        until[vid] := now + BACKOFF_TSC;
        for i := 0 to |pkts| - ret
          modifies retryPkts
          invariant forall k :: 0 <= k < i ==> retryPkts[vid, k] == pkts[ret + k]
          invariant forall u, k :: 0 <= u < MAX_VHOSTS && u != vid && 0 <= k < MAX_PKT_BURST ==>
            retryPkts[u, k] == old(retryPkts[u, k])
        {
          retryPkts[vid, i] := pkts[ret + i];
        }
        retryCnts[vid] := |pkts| - ret;
      } else {
        blocked[vid] := false;
      }
      pktCount[vid] := (pktCount[vid] + ret) % COUNTER32;
      freed := pkts[..ret];
      assert Retry(vid) == pkts[ret..];
      forall u | 0 <= u < MAX_VHOSTS && u != vid
        ensures View(u) == old(View(u))
      {
        assert Retry(u) == old(Retry(u));
      }
    }

    /** vhost_tx.c:104-132: the retry is offered once more and then released whole. */
    method Resend(vid: nat, accept: int, now: nat) returns (delivered: seq<P>, freed: seq<P>)
      requires Valid() && vid < MAX_VHOSTS && retryCnts[vid] > 0 && accept <= retryCnts[vid]
      modifies retryCnts, blocked, until, requeueCount
      ensures Valid()
      ensures var n := if accept < 0 then 0 else accept;
        var offer := old(Retry(vid));
        && delivered == offer[..n] && freed == offer
        && View(vid) == Vm(n < |offer|, if n < |offer| then now + BACKOFF_TSC else old(until[vid]), [],
                           pktCount[vid], (old(requeueCount[vid]) + n) % COUNTER32)
      ensures forall u :: 0 <= u < MAX_VHOSTS && u != vid ==> View(u) == old(View(u))
    {
      var num := retryCnts[vid];
      freed := [];
      for i := 0 to num
        invariant |freed| == i && forall k :: 0 <= k < i ==> freed[k] == retryPkts[vid, k]
      {
        freed := freed + [retryPkts[vid, i]];
      }
      assert freed == Retry(vid);
      var ret := accept;
      if ret < 0 {
        ret := 0;
      }
      delivered := freed[..ret];
      if ret < num {
        blocked[vid] := true;
        until[vid] := now + BACKOFF_TSC;
      } else {
        blocked[vid] := false;
      }
      requeueCount[vid] := (requeueCount[vid] + ret) % COUNTER32;
      retryCnts[vid] := 0;
      assert Retry(vid) == [];
      forall u | 0 <= u < MAX_VHOSTS && u != vid
        ensures View(u) == old(View(u))
      {
        assert Retry(u) == old(Retry(u));
      }
    }

    /** vhost_tx.c:21-51: the gate, the retry or a fresh burst. */
    method Serve(vid: nat, v: Visit<P>) returns (e: Effect<P>)
      requires Valid() && vid < MAX_VHOSTS && Answers(View(vid), v)
      modifies retryPkts, retryCnts, blocked, until, pktCount, requeueCount
      ensures Valid()
      ensures (View(vid), e) == Step(old(View(vid)), v)
      ensures forall u :: 0 <= u < MAX_VHOSTS && u != vid ==> View(u) == old(View(u))
    {
      if blocked[vid] && v.gate < until[vid] {
        return Effect(false, [], [], [], []);
      }
      if retryCnts[vid] > 0 {
        var delivered, freed := Resend(vid, v.accept, v.now);
        return Effect(true, [], freed, delivered, freed);
      }
      assert Retry(vid) == [];
      var pkts := Burst(v.available);
      if |pkts| > 0 {
        var freed := Send(vid, pkts, v.accept, v.now);
        return Effect(true, pkts, pkts, freed, freed);
      }
      return Effect(true, [], [], [], []);
    }

    /** One VM's turn in the loop: a step of the run model, by the guest's answer. */
    method VisitVm(vid: nat, v: Visit<P>) returns (e: Effect<P>)
      requires Valid() && vid < MAX_VHOSTS && Answers(View(vid), v)
      modifies retryPkts, retryCnts, blocked, until, pktCount, requeueCount
      ensures Valid()
      ensures (View(vid), e) == Step(old(View(vid)), v)
      ensures AnsweredBy(old(View(vid)), v, View(vid), e)
      ensures forall u :: 0 <= u < MAX_VHOSTS && u != vid ==> View(u) == old(View(u))
    {
      VisitMeaning(View(vid), v);
      e := Serve(vid, v);
    }
  }
}
