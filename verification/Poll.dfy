/** Adaptive polling of one VM by its RX core (src/fast/poll.h, the gate in
    src/fast/vhost_rx.c:89-137). */
module Poll {
  import opened Arith
  import opened Topology

  datatype RxState = Hot | Warm | Cool | Cold | Frozen

  datatype Ap = Ap(state: RxState, score: int, until: nat)

  const RX_BACKOFF: nat := 100000
  const LOW_PKT_BURST: nat := MAX_PKT_BURST / 4
  const COUNTER64: nat := 0x1_0000_0000_0000_0000

  function Initial(): Ap { Ap(Hot, 0, 0) }

  function Band(score: int): RxState {
    if score <= 0 then Hot
    else if score <= 4 then Warm
    else if score <= 8 then Cool
    else if score <= 16 then Cold
    else Frozen
  }

  function Clamp(score: int): int {
    var low := if score < -8 then -8 else score;
    if low > 32 then 32 else low
  }

  /** update_rx_state; `tsc` is the clock it reads when it freezes the VM. */
  function Update(ap: Ap, polled: nat, tsc: nat): Ap {
    var score := Clamp(if polled > LOW_PKT_BURST then ap.score - 4 else ap.score + 1);
    Ap(Band(score), score, if score > 16 then tsc + RX_BACKOFF else ap.until)
  }

  /** Whether the loop polls the VM in the iteration numbered `iter`. */
  predicate Passes(ap: Ap, iter: nat, tsc: nat) {
    match ap.state
    case Hot => true
    case Warm => iter % 4 == 0
    case Cool => iter % 8 == 0
    case Cold => iter % 16 == 0
    case Frozen => tsc >= ap.until
  }

  function Thaw(ap: Ap): Ap {
    if ap.state.Frozen? then ap.(score := 8, state := Cool) else ap
  }

  /** One iteration as the VM sees it: the clock at the gate, the number of
      packets a poll would find, and the clock in the update. */
  datatype Tick = Tick(gate: nat, packets: nat, after: nat)

  function Advance(ap: Ap, iter: nat, t: Tick): Ap {
    if Passes(ap, iter, t.gate) then Update(Thaw(ap), t.packets, t.after) else ap
  }

  /** A run of iterations; the counter starts at `iter` and is a 64-bit word. */
  function After(ap: Ap, iter: nat, ticks: seq<Tick>): Ap
    decreases |ticks|
  {
    if ticks == [] then ap
    else After(Advance(ap, iter % COUNTER64, ticks[0]), iter + 1, ticks[1..])
  }

  predicate PolledAt(ap: Ap, iter: nat, ticks: seq<Tick>, i: nat)
    requires i < |ticks|
  {
    Passes(After(ap, iter, ticks[..i]), (iter + i) % COUNTER64, ticks[i].gate)
  }

  // ----- Reachable states

  predicate Reachable(ap: Ap) {
    -8 <= ap.score <= 17 && ap.state == Band(ap.score)
  }

  lemma FrozenExactlyAt17(ap: Ap)
    requires Reachable(ap)
    ensures ap.state.Frozen? <==> ap.score == 17
  {
  }

  /** When a VM is polled: always while its score is at most 0, in every 4th, 8th or
      16th iteration up to 4, 8 or 16, and at 17 when the clock reaches the deadline. */
  lemma GateExactly(ap: Ap, iter: nat, tsc: nat)
    requires Reachable(ap)
    ensures Passes(ap, iter, tsc) <==>
      || ap.score <= 0
      || (0 < ap.score <= 4 && iter % 4 == 0)
      || (4 < ap.score <= 8 && iter % 8 == 0)
      || (8 < ap.score <= 16 && iter % 16 == 0)
      || (ap.score == 17 && tsc >= ap.until)
  {
  }

  /** Every step keeps the state a function of the score, and the upper clamp is
      never needed: the score before clamping is at most 17. A poll of more than 16
      packets takes 4 off the score, any other adds 1, a frozen VM counting from 8; a
      score of 17 sets the deadline, and an iteration without a poll changes nothing. */
  lemma AdvanceReachable(ap: Ap, iter: nat, t: Tick)
    requires Reachable(ap)
    ensures var ap' := Advance(ap, iter, t);
      var start := if ap.score == 17 then 8 else ap.score;
      && Reachable(ap') && start + 1 <= 17
      && (!Passes(ap, iter, t.gate) ==> ap' == ap)
      && (Passes(ap, iter, t.gate) ==>
            && ap'.score == (if t.packets <= 16 then start + 1 else if start < -4 then -8 else start - 4)
            && ap'.until == (if ap'.score == 17 then t.after + 100000 else ap.until))
      && (ap'.state.Hot? <==> ap'.score <= 0)
      && (ap'.state.Warm? <==> 0 < ap'.score <= 4)
      && (ap'.state.Cool? <==> 4 < ap'.score <= 8)
      && (ap'.state.Cold? <==> 8 < ap'.score <= 16)
      && (ap'.state.Frozen? <==> ap'.score == 17)
  {
  }

  lemma {:induction false} RunReachable(ap: Ap, iter: nat, ticks: seq<Tick>)
    requires Reachable(ap)
    ensures Reachable(After(ap, iter, ticks))
    decreases |ticks|
  {
    if ticks != [] {
      AdvanceReachable(ap, iter % COUNTER64, ticks[0]);
      RunReachable(Advance(ap, iter % COUNTER64, ticks[0]), iter + 1, ticks[1..]);
    }
  }

  // ----- What consecutive polls do

  /** The state after polls that return these packet counts, with their clocks. */
  function Polls(ap: Ap, polls: seq<(nat, nat)>): Ap
    decreases |polls|
  {
    if polls == [] then ap
    else Polls(Update(Thaw(ap), polls[0].0, polls[0].1), polls[1..])
  }

  ghost predicate AllIdle(polls: seq<(nat, nat)>) {
    forall i :: 0 <= i < |polls| ==> polls[i].0 <= LOW_PKT_BURST
  }

  ghost predicate AllBusy(polls: seq<(nat, nat)>) {
    forall i :: 0 <= i < |polls| ==> polls[i].0 > LOW_PKT_BURST
  }

  lemma {:induction false} IdleClimb(ap: Ap, polls: seq<(nat, nat)>)
    requires Reachable(ap) && AllIdle(polls) && |polls| <= 17 - Thaw(ap).score
    ensures polls != [] ==> Reachable(Polls(ap, polls)) && Polls(ap, polls).score == Thaw(ap).score + |polls|
    decreases |polls|
  {
    if polls != [] {
      var next := Update(Thaw(ap), polls[0].0, polls[0].1);
      assert Reachable(next) && next.score == Thaw(ap).score + 1;
      if |polls| > 1 {
        IdleClimb(next, polls[1..]);
      }
    }
  }

  lemma {:induction false} PollsConcat(ap: Ap, a: seq<(nat, nat)>, b: seq<(nat, nat)>)
    ensures Polls(ap, a + b) == Polls(Polls(ap, a), b)
    decreases |a|
  {
    if a == [] {
      assert a + b == b;
    } else {
      PollsConcat(Update(Thaw(ap), a[0].0, a[0].1), a[1..], b);
      assert (a + b)[1..] == a[1..] + b;
    }
  }

  /** Idle polls, however many: the first freeze comes after 17 less the score (the
      score after thawing), and then every ninth poll freezes again. */
  lemma {:induction false} IdleCycle(ap: Ap, polls: seq<(nat, nat)>)
    requires Reachable(ap) && AllIdle(polls) && polls != []
    ensures var first := 17 - Thaw(ap).score;
      Polls(ap, polls).state.Frozen? <==> |polls| >= first && (|polls| - first) % 9 == 0
    decreases |polls|
  {
    var first := 17 - Thaw(ap).score;
    if |polls| <= first {
      IdleClimb(ap, polls);
    } else {
      var a, b := polls[..first], polls[first..];
      IdleClimb(ap, a);
      assert polls == a + b;
      PollsConcat(ap, a, b);
      IdleCycle(Polls(ap, a), b);
    }
  }

  /** A frozen VM that stays idle is frozen again exactly after every ninth poll. */
  lemma NinePollsPerFreeze(ap: Ap, polls: seq<(nat, nat)>)
    requires Reachable(ap) && ap.state.Frozen? && AllIdle(polls)
    ensures Polls(ap, polls).state.Frozen? <==> |polls| % 9 == 0
  {
    if polls != [] {
      IdleCycle(ap, polls);
    }
  }

  /** From every other state an idle VM freezes after 17 less its score polls and
      then after every ninth. */
  lemma IdleFreezes(ap: Ap, polls: seq<(nat, nat)>)
    requires Reachable(ap) && !ap.state.Frozen? && AllIdle(polls)
    ensures Polls(ap, polls).state.Frozen? <==> |polls| >= 17 - ap.score && (|polls| - (17 - ap.score)) % 9 == 0
  {
    if polls != [] {
      IdleCycle(ap, polls);
    }
  }

  lemma {:induction false} BusyFall(ap: Ap, polls: seq<(nat, nat)>)
    requires Reachable(ap) && AllBusy(polls) && |polls| > 0
    ensures Reachable(Polls(ap, polls))
    ensures Polls(ap, polls).score == if Thaw(ap).score - 4 * |polls| < -8 then -8 else Thaw(ap).score - 4 * |polls|
    decreases |polls|
  {
    var next := Update(Thaw(ap), polls[0].0, polls[0].1);
    assert Reachable(next) && !next.state.Frozen?;
    if |polls| > 1 {
      BusyFall(next, polls[1..]);
    } else {
      assert polls[1..] == [];
    }
  }

  /** After k > 0 busy polls in a row the VM is hot exactly when 4k covers its
      score; four suffice from every reachable state, two from frozen. */
  lemma BusyReachesHot(ap: Ap, polls: seq<(nat, nat)>)
    requires Reachable(ap) && AllBusy(polls) && |polls| > 0
    ensures Polls(ap, polls).state.Hot? <==> Thaw(ap).score <= 4 * |polls|
    ensures |polls| >= 4 ==> Polls(ap, polls).state.Hot?
    ensures ap.state.Frozen? && |polls| >= 2 ==> Polls(ap, polls).state.Hot?
  {
    BusyFall(ap, polls);
  }

  // ----- No starvation

  lemma {:induction false} UnpolledUnchanged(ap: Ap, iter: nat, ticks: seq<Tick>, k: nat)
    requires k <= |ticks|
    requires forall i :: 0 <= i < k ==> !PolledAt(ap, iter, ticks, i)
    ensures After(ap, iter, ticks[..k]) == ap
  {
    if k > 0 {
      UnpolledUnchanged(ap, iter, ticks, k - 1);
      AfterSnoc(ap, iter, ticks[..k - 1], ticks[k - 1]);
      assert ticks[..k] == ticks[..k - 1] + [ticks[k - 1]];
      assert !PolledAt(ap, iter, ticks, k - 1);
    }
  }

  lemma {:induction false} AfterSnoc(ap: Ap, iter: nat, ticks: seq<Tick>, t: Tick)
    ensures After(ap, iter, ticks + [t]) == Advance(After(ap, iter, ticks), (iter + |ticks|) % COUNTER64, t)
    decreases |ticks|
  {
    if ticks == [] {
      assert (ticks + [t])[1..] == [];
    } else {
      AfterSnoc(Advance(ap, iter % COUNTER64, ticks[0]), iter + 1, ticks[1..], t);
      assert (ticks + [t])[1..] == ticks[1..] + [t];
    }
  }

  /** Wrapping a 64-bit counter does not disturb its low four bits. */
  lemma LowBits(x: nat)
    ensures x % COUNTER64 % 16 == x % 16
  {
    var q := x / COUNTER64;
    assert x == (q * (COUNTER64 / 16)) * 16 + x % COUNTER64;
    ModAdd(x % COUNTER64, q * (COUNTER64 / 16), 16);
  }

  lemma SixteenthPasses(n: nat)
    requires n % 16 == 0
    ensures n % 8 == 0 && n % 4 == 0
  {
    var q := n / 16;
    ModUnique(n, 2 * q, 0, 8);
    ModUnique(n, 4 * q, 0, 4);
  }

  /** Among 16 consecutive counter values one passes every gate. */
  lemma NextSixteenth(iter: nat) returns (k: nat)
    ensures k < 16
    ensures var n := (iter + k) % COUNTER64; n % 4 == 0 && n % 8 == 0 && n % 16 == 0
  {
    k := NextOfSixteen(iter);
    LowBits(iter + k);
    SixteenthPasses((iter + k) % COUNTER64);
  }

  /** A VM that is not frozen is polled within any 16 consecutive iterations,
      whatever the traffic, also when the counter wraps. */
  lemma PolledWithin16(ap: Ap, iter: nat, ticks: seq<Tick>)
    requires Reachable(ap) && !ap.state.Frozen? && |ticks| == 16
    ensures exists i :: 0 <= i < 16 && PolledAt(ap, iter, ticks, i)
  {
    var k := NextSixteenth(iter);
    if forall i :: 0 <= i < k ==> !PolledAt(ap, iter, ticks, i) {
      UnpolledUnchanged(ap, iter, ticks, k);
      assert PolledAt(ap, iter, ticks, k);
    }
  }

  /** A frozen VM is polled in the first iteration whose clock has reached the
      deadline, and in none before. */
  lemma FrozenUntilDeadline(ap: Ap, iter: nat, ticks: seq<Tick>, k: nat)
    requires ap.state.Frozen? && k < |ticks|
    requires forall i :: 0 <= i < k ==> ticks[i].gate < ap.until
    ensures forall i :: 0 <= i < k ==> !PolledAt(ap, iter, ticks, i)
    ensures PolledAt(ap, iter, ticks, k) <==> ticks[k].gate >= ap.until
  {
    var j := 0;
    while j < k
      invariant 0 <= j <= k
      invariant forall i :: 0 <= i < j ==> !PolledAt(ap, iter, ticks, i)
    {
      UnpolledUnchanged(ap, iter, ticks, j);
      j := j + 1;
    }
    UnpolledUnchanged(ap, iter, ticks, k);
  }

  /** A freeze lasts 100000 cycles of the clock that the freezing poll read: no poll
      before, and one in the first iteration at or after that. */
  lemma FreezeLasts(ap: Ap, iter: nat, t: Tick, next: nat, ticks: seq<Tick>, k: nat)
    requires next == iter + 1 && Reachable(ap) && Passes(ap, iter % COUNTER64, t.gate) && k < |ticks|
    requires Advance(ap, iter % COUNTER64, t).state.Frozen?
    requires forall i :: 0 <= i < k ==> ticks[i].gate < t.after + 100000
    ensures var frozen := Advance(ap, iter % COUNTER64, t);
      && (forall i :: 0 <= i < k ==> !PolledAt(frozen, next, ticks, i))
      && (PolledAt(frozen, next, ticks, k) <==> ticks[k].gate >= t.after + 100000)
  {
    AdvanceReachable(ap, iter % COUNTER64, t);
    FrozenUntilDeadline(Advance(ap, iter % COUNTER64, t), next, ticks, k);
  }

  // ----- Runs as sequences of polls

  /** What the polls of a run find, with the clocks of their updates. */
  function PollsOf(ap: Ap, iter: nat, ticks: seq<Tick>): seq<(nat, nat)>
    decreases |ticks|
  {
    if ticks == [] then []
    else
      var rest := PollsOf(Advance(ap, iter % COUNTER64, ticks[0]), iter + 1, ticks[1..]);
      if Passes(ap, iter % COUNTER64, ticks[0].gate) then [(ticks[0].packets, ticks[0].after)] + rest else rest
  }

  /** A run is its polls: the iterations in between change nothing. */
  lemma {:induction false} RunIsPolls(ap: Ap, iter: nat, ticks: seq<Tick>)
    ensures After(ap, iter, ticks) == Polls(ap, PollsOf(ap, iter, ticks))
    decreases |ticks|
  {
    if ticks != [] {
      var next := Advance(ap, iter % COUNTER64, ticks[0]);
      RunIsPolls(next, iter + 1, ticks[1..]);
      var rest := PollsOf(next, iter + 1, ticks[1..]);
      if Passes(ap, iter % COUNTER64, ticks[0].gate) {
        assert PollsOf(ap, iter, ticks)[1..] == rest;
      }
    }
  }

  ghost predicate IdleTicks(ticks: seq<Tick>) {
    forall i :: 0 <= i < |ticks| ==> ticks[i].packets <= LOW_PKT_BURST
  }

  ghost predicate BusyTicks(ticks: seq<Tick>) {
    forall i :: 0 <= i < |ticks| ==> ticks[i].packets > LOW_PKT_BURST
  }

  lemma {:induction false} PollsOfTicks(ap: Ap, iter: nat, ticks: seq<Tick>)
    ensures IdleTicks(ticks) ==> AllIdle(PollsOf(ap, iter, ticks))
    ensures BusyTicks(ticks) ==> AllBusy(PollsOf(ap, iter, ticks))
    decreases |ticks|
  {
    if ticks != [] {
      PollsOfTicks(Advance(ap, iter % COUNTER64, ticks[0]), iter + 1, ticks[1..]);
    }
  }

  /** The state of an always-idle VM after any run depends only on the number of
      polls: it is frozen after the first 17 less its score, and then after every
      ninth. */
  lemma IdleRunCycle(ap: Ap, iter: nat, ticks: seq<Tick>)
    requires Reachable(ap) && IdleTicks(ticks)
    ensures var n := |PollsOf(ap, iter, ticks)|;
      After(ap, iter, ticks).state.Frozen? <==>
        if ap.state.Frozen? then n % 9 == 0 else n >= 17 - ap.score && (n - (17 - ap.score)) % 9 == 0
  {
    RunIsPolls(ap, iter, ticks);
    var polls := PollsOf(ap, iter, ticks);
    PollsOfTicks(ap, iter, ticks);
    if ap.state.Frozen? {
      NinePollsPerFreeze(ap, polls);
    } else {
      IdleFreezes(ap, polls);
    }
  }

  lemma {:induction false} PollsOfSnoc(ap: Ap, iter: nat, ticks: seq<Tick>, t: Tick)
    ensures PollsOf(ap, iter, ticks + [t]) == PollsOf(ap, iter, ticks) +
      if Passes(After(ap, iter, ticks), (iter + |ticks|) % COUNTER64, t.gate) then [(t.packets, t.after)] else []
    decreases |ticks|
  {
    if ticks == [] {
      assert (ticks + [t])[1..] == [];
    } else {
      PollsOfSnoc(Advance(ap, iter % COUNTER64, ticks[0]), iter + 1, ticks[1..], t);
      assert (ticks + [t])[1..] == ticks[1..] + [t];
    }
  }

  lemma {:induction false} AfterConcat(ap: Ap, iter: nat, a: seq<Tick>, b: seq<Tick>)
    ensures After(ap, iter, a + b) == After(After(ap, iter, a), iter + |a|, b)
    decreases |a|
  {
    if a == [] {
      assert a + b == b;
    } else {
      AfterConcat(Advance(ap, iter % COUNTER64, a[0]), iter + 1, a[1..], b);
      assert (a + b)[1..] == a[1..] + b;
    }
  }

  lemma {:induction false} PollsOfConcat(ap: Ap, iter: nat, a: seq<Tick>, b: seq<Tick>)
    ensures PollsOf(ap, iter, a + b) == PollsOf(ap, iter, a) + PollsOf(After(ap, iter, a), iter + |a|, b)
    decreases |b|
  {
    if b == [] {
      assert a + b == a;
    } else {
      var front, t := b[..|b| - 1], b[|b| - 1];
      PollsOfConcat(ap, iter, a, front);
      AfterConcat(ap, iter, a, front);
      PollsOfSnoc(ap, iter, a + front, t);
      PollsOfSnoc(After(ap, iter, a), iter + |a|, front, t);
      assert a + b == (a + front) + [t] && b == front + [t];
    }
  }

  lemma PolledCounts(ap: Ap, iter: nat, ticks: seq<Tick>, i: nat)
    requires i < |ticks| && PolledAt(ap, iter, ticks, i)
    ensures |PollsOf(ap, iter, ticks)| > 0
  {
    var front, back := ticks[..i], ticks[i..];
    assert ticks == front + back && back[0] == ticks[i];
    PollsOfConcat(ap, iter, front, back);
    assert |PollsOf(After(ap, iter, front), iter + |front|, back)| > 0;
  }

  /** While it is not frozen a VM is polled at least once in 16 iterations. */
  lemma {:induction false} PollsAtLeast(ap: Ap, iter: nat, ticks: seq<Tick>)
    requires Reachable(ap)
    requires forall k :: 0 <= k < |ticks| ==> !After(ap, iter, ticks[..k]).state.Frozen?
    ensures |PollsOf(ap, iter, ticks)| >= |ticks| / 16
    decreases |ticks|
  {
    if |ticks| >= 16 {
      var a, b := ticks[..16], ticks[16..];
      var mid := After(ap, iter, a);
      assert !After(ap, iter, ticks[..0]).state.Frozen?;
      PolledWithin16(ap, iter, a);
      var i :| 0 <= i < 16 && PolledAt(ap, iter, a, i);
      PolledCounts(ap, iter, a, i);
      PollsOfConcat(ap, iter, a, b);
      assert ticks == a + b;
      RunReachable(ap, iter, a);
      forall k | 0 <= k < |b|
        ensures !After(mid, iter + 16, b[..k]).state.Frozen?
      {
        assert ticks[..16 + k] == a + b[..k];
        AfterConcat(ap, iter, a, b[..k]);
      }
      PollsAtLeast(mid, iter + 16, b);
    }
  }

  /** Before an idle VM's first freeze its polls are too few for one. */
  lemma {:induction false} IdlePollsBelow(ap: Ap, iter: nat, ticks: seq<Tick>)
    requires Reachable(ap) && IdleTicks(ticks)
    requires forall k :: 0 <= k <= |ticks| ==> !After(ap, iter, ticks[..k]).state.Frozen?
    ensures |PollsOf(ap, iter, ticks)| < 17 - ap.score
    decreases |ticks|
  {
    assert ticks[..|ticks|] == ticks;
    assert !After(ap, iter, ticks[..0]).state.Frozen?;
    if ticks != [] {
      var front, t := ticks[..|ticks| - 1], ticks[|ticks| - 1];
      forall k | 0 <= k <= |front|
        ensures !After(ap, iter, front[..k]).state.Frozen?
      {
        assert front[..k] == ticks[..k];
      }
      IdlePollsBelow(ap, iter, front);
      assert ticks == front + [t];
      PollsOfSnoc(ap, iter, front, t);
      IdleRunCycle(ap, iter, ticks);
    }
  }

  /** An always-idle VM freezes within 16 iterations for each poll it needs, also
      over a wrap of the counter; with `IdleRunCycle` and `FrozenUntilDeadline` it
      then goes round in cycles of nine polls per freeze. */
  lemma IdleRunFreezes(ap: Ap, iter: nat, ticks: seq<Tick>)
    requires Reachable(ap) && IdleTicks(ticks) && |ticks| >= 16 * (17 - ap.score)
    ensures exists k :: 0 <= k <= |ticks| && After(ap, iter, ticks[..k]).state.Frozen?
  {
    if forall k :: 0 <= k <= |ticks| ==> !After(ap, iter, ticks[..k]).state.Frozen? {
      PollsAtLeast(ap, iter, ticks);
      IdlePollsBelow(ap, iter, ticks);
      assert false;
    }
  }

  lemma {:induction false} BusyStaysThawed(ap: Ap, iter: nat, ticks: seq<Tick>)
    requires Reachable(ap) && !ap.state.Frozen? && BusyTicks(ticks)
    ensures !After(ap, iter, ticks).state.Frozen?
    decreases |ticks|
  {
    if ticks != [] {
      var next := Advance(ap, iter % COUNTER64, ticks[0]);
      AdvanceReachable(ap, iter % COUNTER64, ticks[0]);
      BusyStaysThawed(next, iter + 1, ticks[1..]);
    }
  }

  /** A VM that is not frozen and always busy is hot after 64 iterations, and stays so. */
  lemma BusyRunHot(ap: Ap, iter: nat, ticks: seq<Tick>)
    requires Reachable(ap) && !ap.state.Frozen? && BusyTicks(ticks) && |ticks| >= 64
    ensures After(ap, iter, ticks).state.Hot?
  {
    forall k | 0 <= k < |ticks|
      ensures !After(ap, iter, ticks[..k]).state.Frozen?
    {
      BusyStaysThawed(ap, iter, ticks[..k]);
    }
    PollsAtLeast(ap, iter, ticks);
    RunIsPolls(ap, iter, ticks);
    var polls := PollsOf(ap, iter, ticks);
    PollsOfTicks(ap, iter, ticks);
    BusyReachesHot(ap, polls);
  }

  // ----- The polling record of one VM

  class VhostAp {
    var state: RxState
    var score: int
    var until: nat

    ghost function View(): Ap reads this { Ap(state, score, until) }

    constructor ()
      ensures View() == Initial() && Reachable(View()) && state == Hot && score == 0
    {
      state, score, until := Hot, 0, 0;
    }

    /** poll.h:23-49; `counts` is the core's tally of polls per state. */
    method UpdateRxState(polled: nat, tsc: nat, counts: array<nat>)
      requires counts.Length == 5
      modifies this, counts
      ensures View() == Update(old(View()), polled, tsc)
      ensures var k := match state case Hot => 0 case Warm => 1 case Cool => 2 case Cold => 3 case Frozen => 4;
        counts[..] == old(counts[..])[k := (old(counts[k]) + 1) % COUNTER32]
    {
      if polled > LOW_PKT_BURST {
        score := score - 4;
      } else {
        score := score + 1;
      }
      score := if -8 > score then -8 else score;
      score := if 32 < score then 32 else score;
      if score <= 0 {
        state := Hot;
        counts[0] := (counts[0] + 1) % COUNTER32;
      } else if score <= 4 {
        state := Warm;
        counts[1] := (counts[1] + 1) % COUNTER32;
      } else if score <= 8 {
        state := Cool;
        counts[2] := (counts[2] + 1) % COUNTER32;
      } else if score <= 16 {
        state := Cold;
        counts[3] := (counts[3] + 1) % COUNTER32;
      } else {
        state := Frozen;
        until := tsc + RX_BACKOFF;
        counts[4] := (counts[4] + 1) % COUNTER32;
      }
    }

    /** vhost_rx.c:113-137: the gate, the poll and the update. */
    method Visit(iter: nat, t: Tick, counts: array<nat>) returns (polled: bool)
      requires counts.Length == 5
      modifies this, counts
      ensures polled == old(Passes(View(), iter, t.gate))
      ensures View() == Advance(old(View()), iter, t)
    {
      match state {
        case Hot =>
        case Warm => if iter % 4 != 0 { return false; }
        case Cool => if iter % 8 != 0 { return false; }
        case Cold => if iter % 16 != 0 { return false; }
        case Frozen =>
          if t.gate < until { return false; }
          score := 8;
          state := Cool;
      }
      UpdateRxState(t.packets, t.after, counts);
      return true;
    }
  }
}
