/** Round-robin ECN marking of a bucket before it enters a ring (src/fast/ecn.h). */
module Ecn {
  import opened Arith
  import opened Topology

  const ECN_START: int := RING_SIZE * 1 / 2
  const ECN_MID: int := RING_SIZE * 7 / 10
  const ECN_HIGH: int := RING_SIZE * 85 / 100

  /** The marking interval at a congestion level, 0 when nothing is counted. */
  function StepOf(congestion: int): (step: nat)
    ensures step == 0 <==> congestion < 8192
    ensures step == 16 <==> 8192 <= congestion < 11468
    ensures step == 4 <==> 11468 <= congestion < 13926
    ensures step == 1 <==> congestion >= 13926
  {
    if congestion < ECN_START then 0
    else if congestion < ECN_MID then 16
    else if congestion < ECN_HIGH then 4
    else 1
  }

  predicate Selected(counter: nat, step: nat)
    requires step > 0
  {
    counter % step == 0
  }

  function Wrap(x: nat): nat { x % COUNTER32 }

  // ----- The packet's codepoint

  /** A packet as the marker sees it; `tos` is meaningful for IPv4 only. */
  datatype Packet = Packet(id: nat, ipv4: bool, tos: bv8)

  /** ecn.h:34-46: ECN-capable IPv4 packets get the CE codepoint. */
  function Mark(p: Packet): Packet {
    if p.ipv4 && p.tos & 3 != 0 then p.(tos := p.tos | 3) else p
  }

  /** Marking keeps the identity and the differentiated-services bits, turns every
      ECN-capable codepoint into CE and never makes a packet ECN-capable. */
  lemma MarkMeaning(p: Packet)
    ensures Mark(p).id == p.id && Mark(p).ipv4 == p.ipv4
    ensures Mark(p).tos & 0xFC == p.tos & 0xFC
    ensures p.ipv4 ==> (Mark(p).tos & 3 == if p.tos & 3 == 0 then 0 else 3)
    ensures !p.ipv4 ==> Mark(p) == p
    ensures Mark(Mark(p)) == Mark(p)
  {
  }

  // ----- One burst

  /** ecn.h:13-32 on the bucket's array; `rr` is the ring's 32-bit counter. The
      j-th packet is marked when the counter value it meets is selected. */
  method MarkPackets(mbufs: array<Packet>, num: nat, congestion: int, rr: nat) returns (rr': nat)
    requires num <= mbufs.Length && rr < COUNTER32
    modifies mbufs
    ensures forall j :: num <= j < mbufs.Length ==> mbufs[j] == old(mbufs[j])
    ensures congestion < 8192 ==> rr' == rr && forall j :: 0 <= j < num ==> mbufs[j] == old(mbufs[j])
    ensures congestion >= 8192 ==> rr' == (rr + num) % 0x1_0000_0000
    ensures congestion >= 8192 ==>
      var step := if congestion < 11468 then 16 else if congestion < 13926 then 4 else 1;
      forall j :: 0 <= j < num ==>
        mbufs[j] == if (rr + j) % 0x1_0000_0000 % step == 0 then Mark(old(mbufs[j])) else old(mbufs[j])
  {
    rr' := rr;
    if congestion < ECN_START {
      return;
    }
    var step;
    if congestion < ECN_MID {
      step := 16;
    } else if congestion < ECN_HIGH {
      step := 4;
    } else {
      step := 1;
    }
    for i := 0 to num
      invariant rr' == Wrap(rr + i)
      invariant forall j :: i <= j < mbufs.Length ==> mbufs[j] == old(mbufs[j])
      invariant forall j :: 0 <= j < i ==> mbufs[j] == AtCounter(old(mbufs[j]), Wrap(rr + j), step)
    {
      ModPlus(rr + i, 1, COUNTER32);
      if rr' % step == 0 {
        mbufs[i] := Mark(mbufs[i]);
      }
      rr' := (rr' + 1) % COUNTER32;
    }
  }

  function AtCounter(p: Packet, counter: nat, step: nat): Packet
    requires step > 0
  {
    if Selected(counter, step) then Mark(p) else p
  }

  // ----- Rates over whole runs

  /** How many of the `n` counter values from `rr` on are selected. */
  ghost function Count(rr: nat, n: nat, step: nat): nat
    requires step > 0
  {
    if n == 0 then 0
    else Count(rr, n - 1, step) + if Selected(Wrap(rr + n - 1), step) then 1 else 0
  }

  /** The steps in use divide 2^32, so wrapping does not disturb the pattern. */
  lemma WrapKeepsPattern(x: nat, step: nat)
    requires step == 1 || step == 4 || step == 16
    ensures Selected(Wrap(x), step) <==> x % step == 0
  {
    var q := x / COUNTER32;
    assert x == q * COUNTER32 + Wrap(x);
  }

  /** Multiples of `step` in [0, x), as a number. */
  ghost function Upto(x: nat, step: nat): nat
    requires step > 0
  {
    (x + step - 1) / step
  }

  lemma UptoStep(x: nat, step: nat)
    requires step == 1 || step == 4 || step == 16
    ensures Upto(x + 1, step) == Upto(x, step) + if x % step == 0 then 1 else 0
  {
    if step == 1 {
    } else if step == 4 {
      assert Upto(x + 1, 4) == (x + 4) / 4 && Upto(x, 4) == (x + 3) / 4;
    } else {
      assert Upto(x + 1, 16) == (x + 16) / 16 && Upto(x, 16) == (x + 15) / 16;
    }
  }

  lemma {:induction false} CountExact(rr: nat, n: nat, step: nat)
    requires step == 1 || step == 4 || step == 16
    ensures Count(rr, n, step) == Upto(rr + n, step) - Upto(rr, step)
  {
    if n > 0 {
      CountExact(rr, n - 1, step);
      WrapKeepsPattern(rr + n - 1, step);
      UptoStep(rr + n - 1, step);
    }
  }

  lemma UptoRange(rr: nat, n: nat, step: nat)
    requires step == 1 || step == 4 || step == 16
    ensures n / step <= Upto(rr + n, step) - Upto(rr, step) <= (n + step - 1) / step
  {
    if step == 1 {
    } else if step == 4 {
      assert n / 4 <= (rr + n + 3) / 4 - (rr + 3) / 4 <= (n + 3) / 4;
    } else {
      assert n / 16 <= (rr + n + 15) / 16 - (rr + 15) / 16 <= (n + 15) / 16;
    }
  }

  /** At a constant level the number of selected packets among any `n` consecutive
      ones is `n / step` rounded down or up, also across a counter wrap. */
  lemma MarkingRate(rr: nat, n: nat, congestion: int)
    requires congestion >= ECN_START
    ensures 8192 <= congestion < 11468 ==>
      StepOf(congestion) == 16 && n / 16 <= Count(rr, n, 16) <= (n + 15) / 16
    ensures 11468 <= congestion < 13926 ==>
      StepOf(congestion) == 4 && n / 4 <= Count(rr, n, 4) <= (n + 3) / 4
    ensures congestion >= 13926 ==> StepOf(congestion) == 1 && Count(rr, n, 1) == n
  {
    CountExact(rr, n, StepOf(congestion));
    UptoRange(rr, n, StepOf(congestion));
  }

  /** A higher level selects every counter value a lower counting level selects. */
  lemma HigherSelectsMore(counter: nat, low: int, high: int)
    requires ECN_START <= low <= high
    ensures Selected(counter, StepOf(low)) ==> Selected(counter, StepOf(high))
  {
    if StepOf(low) == 16 && StepOf(high) == 4 && Selected(counter, 16) {
      ModUnique(counter, 4 * (counter / 16), 0, 4);
    }
  }

  /** A run on one ring: each burst has its own length and congestion level. */
  datatype Burst = Burst(num: nat, congestion: int)

  /** The level of each packet that moves the counter, in order. */
  ghost function CountedLevels(run: seq<Burst>): seq<int> {
    if run == [] then []
    else
      var here := if run[0].congestion < ECN_START then [] else seq(run[0].num, _ => run[0].congestion);
      here + CountedLevels(run[1..])
  }

  ghost function CounterAfter(run: seq<Burst>, rr: nat): nat {
    if run == [] then rr
    else CounterAfter(run[1..], if run[0].congestion < ECN_START then rr else Wrap(rr + run[0].num))
  }

  /** The counter after a run has moved on by the counted packets, wrapped. */
  lemma {:induction false} CounterTracks(run: seq<Burst>, rr: nat)
    requires rr < COUNTER32
    ensures CounterAfter(run, rr) == Wrap(rr + |CountedLevels(run)|)
    decreases |run|
  {
    if run != [] {
      var rr1 := if run[0].congestion < ECN_START then rr else Wrap(rr + run[0].num);
      CounterTracks(run[1..], rr1);
    }
  }

  /** Selected packets of a whole run. */
  ghost function RunSelected(run: seq<Burst>, rr: nat): nat {
    if run == [] then 0
    else if run[0].congestion < ECN_START then RunSelected(run[1..], rr)
    else Count(rr, run[0].num, StepOf(run[0].congestion)) + RunSelected(run[1..], Wrap(rr + run[0].num))
  }

  lemma SameResidue(x: nat, y: nat, step: nat)
    requires step == 1 || step == 4 || step == 16
    ensures (Wrap(x) + y) % step == (x + y) % step
  {
    var q := x / COUNTER32;
    var k := COUNTER32 / step;
    assert k * step == COUNTER32;
    assert x + y == (q * k) * step + (Wrap(x) + y);
    ModAdd(Wrap(x) + y, q * k, step);
  }

  /** Where one burst stops the next one goes on, also over a wrap. */
  lemma {:induction false} CountSplit(rr: nat, n: nat, m: nat, step: nat)
    requires step == 1 || step == 4 || step == 16
    ensures Count(rr, n + m, step) == Count(rr, n, step) + Count(Wrap(rr + n), m, step)
  {
    if m > 0 {
      CountSplit(rr, n, m - 1, step);
      WrapKeepsPattern(rr + n + m - 1, step);
      WrapKeepsPattern(Wrap(rr + n) + m - 1, step);
      SameResidue(rr + n, m - 1, step);
    }
  }

  ghost function Total(run: seq<Burst>): nat {
    if run == [] then 0 else run[0].num + Total(run[1..])
  }

  lemma {:induction false} RunSelectedIsCount(run: seq<Burst>, rr: nat, step: nat)
    requires step > 0 && forall i :: 0 <= i < |run| ==> StepOf(run[i].congestion) == step
    ensures run != [] ==> RunSelected(run, rr) == Count(rr, Total(run), step)
    decreases |run|
  {
    if run != [] {
      var rest, n := run[1..], run[0].num;
      assert StepOf(run[0].congestion) == step;
      RunSelectedIsCount(rest, Wrap(rr + n), step);
      CountSplit(rr, n, Total(rest), step);
      assert rest == [] ==> Count(Wrap(rr + n), 0, step) == 0;
    }
  }

  /** Over any run of bursts at a constant level with interval `step`, the number
      of selected packets is the total over `step`, rounded down or up. */
  lemma RunMarkingRate(run: seq<Burst>, rr: nat, step: nat)
    requires step > 0 && run != [] && forall i :: 0 <= i < |run| ==> StepOf(run[i].congestion) == step
    ensures Total(run) / step <= RunSelected(run, rr) <= (Total(run) + step - 1) / step
  {
    RunSelectedIsCount(run, rr, step);
    MarkingRate(rr, Total(run), run[0].congestion);
  }

  // ----- Which packets of a run are selected

  /** Whether each counted packet of a run is selected, burst by burst; the wrapped
      counter is handed on from one burst to the next. */
  ghost function Flags(run: seq<Burst>, rr: nat): seq<bool> {
    if run == [] then []
    else if run[0].congestion < ECN_START then Flags(run[1..], rr)
    else BurstFlags(rr, run[0].num, StepOf(run[0].congestion)) + Flags(run[1..], Wrap(rr + run[0].num))
  }

  ghost function BurstFlags(rr: nat, n: nat, step: nat): seq<bool>
    requires step > 0
  {
    seq(n, j requires 0 <= j => Selected(Wrap(rr + j), step))
  }

  ghost function Trues(flags: seq<bool>): nat {
    if flags == [] then 0 else Trues(flags[..|flags| - 1]) + if flags[|flags| - 1] then 1 else 0
  }

  lemma {:induction false} TruesConcat(a: seq<bool>, b: seq<bool>)
    ensures Trues(a + b) == Trues(a) + Trues(b)
    decreases |b|
  {
    if b == [] {
      assert a + b == a;
    } else {
      TruesConcat(a, b[..|b| - 1]);
      assert (a + b)[..|a + b| - 1] == a + b[..|b| - 1];
    }
  }

  lemma {:induction false} BurstTrues(rr: nat, n: nat, step: nat)
    requires step > 0
    ensures Trues(BurstFlags(rr, n, step)) == Count(rr, n, step)
  {
    if n > 0 {
      BurstTrues(rr, n - 1, step);
      assert BurstFlags(rr, n, step)[..n - 1] == BurstFlags(rr, n - 1, step);
    }
  }

  /** The selected packets counted by `RunSelected` are the raised flags. */
  lemma {:induction false} SelectedAreFlags(run: seq<Burst>, rr: nat)
    ensures RunSelected(run, rr) == Trues(Flags(run, rr))
    decreases |run|
  {
    if run != [] {
      if run[0].congestion < ECN_START {
        SelectedAreFlags(run[1..], rr);
      } else {
        var n, step, rr1 := run[0].num, StepOf(run[0].congestion), Wrap(rr + run[0].num);
        SelectedAreFlags(run[1..], rr1);
        BurstTrues(rr, n, step);
        TruesConcat(BurstFlags(rr, n, step), Flags(run[1..], rr1));
      }
    }
  }

  lemma WrapOn(rr: nat, n: nat, i: nat)
    requires n <= i
    ensures Wrap(Wrap(rr + n) + (i - n)) == Wrap(rr + i)
  {
    ModPlus(rr + n, i - n, COUNTER32);
  }

  lemma {:induction false} FlagSelected(run: seq<Burst>, rr: nat, i: nat)
    requires i < |CountedLevels(run)|
    ensures |Flags(run, rr)| == |CountedLevels(run)|
    ensures CountedLevels(run)[i] >= ECN_START
    ensures Flags(run, rr)[i] == Selected(Wrap(rr + i), StepOf(CountedLevels(run)[i]))
    decreases |run|
  {
    FlagsLength(run, rr);
    if run[0].congestion < ECN_START {
      FlagSelected(run[1..], rr, i);
    } else if i >= run[0].num {
      var n := run[0].num;
      FlagSelected(run[1..], Wrap(rr + n), i - n);
      WrapOn(rr, n, i);
    }
  }

  /** The i-th counted packet of a run meets the counter value rr + i, wrapped, and
      is selected when the interval of its own burst's level divides that. */
  lemma FlagAt(run: seq<Burst>, rr: nat, i: nat)
    requires i < |CountedLevels(run)|
    ensures |Flags(run, rr)| == |CountedLevels(run)|
    ensures CountedLevels(run)[i] >= 8192
    ensures Flags(run, rr)[i] <==> (rr + i) % 0x1_0000_0000 % StepOf(CountedLevels(run)[i]) == 0
  {
    FlagSelected(run, rr, i);
  }

  lemma {:induction false} FlagsLength(run: seq<Burst>, rr: nat)
    ensures |Flags(run, rr)| == |CountedLevels(run)|
    decreases |run|
  {
    if run != [] {
      FlagsLength(run[1..], if run[0].congestion < ECN_START then rr else Wrap(rr + run[0].num));
    }
  }

  /** However the level varies between bursts, any 16 consecutive counted packets
      of a run include a selected one. */
  lemma SixteenContainMark(run: seq<Burst>, rr: nat, k: nat)
    requires k + 16 <= |Flags(run, rr)|
    ensures exists i :: k <= i < k + 16 && Flags(run, rr)[i]
  {
    FlagsLength(run, rr);
    var j := NextOfSixteen(rr + k);
    WrapKeepsPattern(rr + k + j, 16);
    FlagSelected(run, rr, k + j);
    HigherSelectsMore(Wrap(rr + k + j), ECN_START, CountedLevels(run)[k + j]);
    assert Flags(run, rr)[k + j];
  }
}
