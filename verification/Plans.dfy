/** Polling plans, device attach and detach, and replanning, each operation taken
    as one atomic step (src/vhost/plan.c, src/vhost/device.c, src/slow/slowpath.c). */
module Plans {
  import opened Finite
  import opened Topology

  /** One side (RX or TX): a plan per core and the core recorded for each vid. */
  datatype Table = Table(plans: seq<seq<nat>>, core: seq<nat>)

  ghost predicate Shaped(t: Table) {
    && |t.plans| > 0
    && |t.core| == MAX_VHOSTS
    && forall i, v :: 0 <= i < |t.plans| && v in t.plans[i] ==> v < MAX_VHOSTS
  }

  /** What the dataplane relies on: a core's plan is duplicate-free and lists
      exactly the live vids recorded for that core. */
  ghost predicate Inv(t: Table, live: set<nat>) {
    && Shaped(t)
    && (forall v :: v in live ==> v < MAX_VHOSTS)
    && (forall v :: 0 <= v < MAX_VHOSTS ==> t.core[v] < |t.plans|)
    && (forall i :: 0 <= i < |t.plans| ==> NoDup(t.plans[i]))
    && (forall i, v :: 0 <= i < |t.plans| ==> (v in t.plans[i] <==> v in live && t.core[v] == i))
  }

  /** A live vid is in exactly one plan, once; a dead one is in none. */
  lemma ExactlyOneCore(t: Table, live: set<nat>, v: nat)
    requires Inv(t, live)
    ensures v in live ==>
      exists c :: 0 <= c < |t.plans| && v in t.plans[c]
               && (forall i :: 0 <= i < |t.plans| && v in t.plans[i] ==> i == c)
    ensures v !in live ==> forall i :: 0 <= i < |t.plans| ==> v !in t.plans[i]
  {
    if v in live {
      assert v in t.plans[t.core[v]];
    }
  }

  // ----- Least-loaded placement

  predicate IsFirstLeast(plans: seq<seq<nat>>, c: nat) {
    && c < |plans|
    && (forall i :: 0 <= i < |plans| ==> |plans[c]| <= |plans[i]|)
    && (forall i :: 0 <= i < c ==> |plans[c]| < |plans[i]|)
  }

  function FirstLeast(plans: seq<seq<nat>>): (c: nat)
    requires |plans| > 0
    ensures IsFirstLeast(plans, c)
  {
    var last := |plans| - 1;
    if last == 0 then 0
    else
      var c := FirstLeast(plans[..last]);
      assert forall i :: 0 <= i < last ==> plans[..last][i] == plans[i];
      if |plans[last]| < |plans[c]| then last else c
  }

  function Add(t: Table, vid: nat): Table
    requires |t.plans| > 0 && vid < |t.core|
  {
    var c := FirstLeast(t.plans);
    if |t.plans[c]| >= MAX_VHOSTS then t
    else Table(t.plans[c := t.plans[c] + [vid]], t.core[vid := c])
  }

  predicate AddFits(t: Table)
    requires |t.plans| > 0
  {
    |t.plans[FirstLeast(t.plans)]| < MAX_VHOSTS
  }

  // ----- Removal

  function Without(p: seq<nat>, vid: nat): (r: seq<nat>)
    ensures vid !in p ==> r == p
    ensures vid in p ==> |r| == |p| - 1
  {
    if p == [] then []
    else if p[0] == vid then p[1..]
    else [p[0]] + Without(p[1..], vid)
  }

  function FindCore(plans: seq<seq<nat>>, vid: nat): (c: nat)
    ensures c <= |plans|
    ensures forall i :: 0 <= i < c ==> vid !in plans[i]
    ensures c < |plans| ==> vid in plans[c]
  {
    if plans == [] then 0
    else if vid in plans[0] then 0
    else 1 + FindCore(plans[1..], vid)
  }

  function Remove(t: Table, vid: nat): Table
    requires vid < |t.core|
  {
    var c := FindCore(t.plans, vid);
    if c == |t.plans| then t
    else Table(t.plans[c := Without(t.plans[c], vid)], t.core[vid := 0])
  }

  // ----- What the two updates mean

  /** The vid is the last entry of the first least loaded core, recorded as its core;
      nothing else changed. */
  ghost predicate AppendedOn(t: Table, t': Table, v: nat, c: nat) {
    && IsFirstLeast(t.plans, c) && |t.plans[c]| < MAX_VHOSTS && v < |t.core|
    && t' == Table(t.plans[c := t.plans[c] + [v]], t.core[v := c])
  }

  /** The first entry of the vid on the first core that has it is gone, the others
      keep their order; nothing else changed. */
  ghost predicate TakenFrom(t: Table, t': Table, v: nat, c: nat, i: nat) {
    && c < |t.plans| && i < |t.plans[c]| && t.plans[c][i] == v && v < |t.core|
    && v !in t.plans[c][..i] && (forall d :: 0 <= d < c ==> v !in t.plans[d])
    && t' == Table(t.plans[c := t.plans[c][..i] + t.plans[c][i + 1..]], t.core[v := 0])
  }

  /** An add fails exactly when every plan is full. */
  lemma AddMeaning(t: Table, vid: nat)
    requires |t.plans| > 0 && vid < |t.core|
    ensures (exists c :: 0 <= c < |t.plans| && |t.plans[c]| < MAX_VHOSTS) ==>
      AddFits(t) && exists c :: AppendedOn(t, Add(t, vid), vid, c)
    ensures (forall c :: 0 <= c < |t.plans| ==> |t.plans[c]| >= MAX_VHOSTS) ==> !AddFits(t) && Add(t, vid) == t
  {
    var c := FirstLeast(t.plans);
    if |t.plans[c]| < MAX_VHOSTS {
      assert AppendedOn(t, Add(t, vid), vid, c);
    }
  }

  /** A removal fails exactly when no plan holds the vid. */
  lemma RemoveMeaning(t: Table, vid: nat)
    requires vid < |t.core|
    ensures (exists c :: 0 <= c < |t.plans| && vid in t.plans[c]) ==>
      exists c, i :: TakenFrom(t, Remove(t, vid), vid, c, i)
    ensures (forall c :: 0 <= c < |t.plans| ==> vid !in t.plans[c]) ==> Remove(t, vid) == t
  {
    var c := FindCore(t.plans, vid);
    if c < |t.plans| {
      var i := IndexIn(t.plans[c], vid);
      WithoutAt(t.plans[c], vid, i);
      assert TakenFrom(t, Remove(t, vid), vid, c, i);
    }
  }

  // ----- A plan in memory

  /** A published plan: a 16-bit count and a slot for every vid. */
  datatype Memory = Memory(num: nat, vids: seq<nat>)

  function Stored(p: seq<nat>): Memory {
    Memory(|p|, p + seq(if |p| < MAX_VHOSTS then MAX_VHOSTS - |p| else 0, _ => 0))
  }

  /** Where the search of plan.c:124-130 stops: 0 for a vid that is not there. */
  function IndexIn(p: seq<nat>, vid: nat): (idx: nat)
    ensures vid in p ==> idx < |p| && p[idx] == vid && vid !in p[..idx]
    ensures vid !in p ==> idx == 0
  {
    if vid !in p || p[0] == vid then 0 else 1 + IndexIn(p[1..], vid)
  }

  /** Slot `k` once the entries from `idx` to before `end` have moved down by one. */
  function Slot(m: Memory, idx: nat, end: nat, k: nat): nat
    requires k < |m.vids| && end <= |m.vids|
  {
    if idx <= k && k + 1 < end then m.vids[k + 1] else m.vids[k]
  }

  /** plan.c:122-137 */
  function Shrink(m: Memory, vid: nat): Memory
    requires m.num <= |m.vids|
  {
    var idx := IndexIn(m.vids[..m.num], vid);
    Memory((m.num + COUNTER16 - 1) % COUNTER16,
           seq(|m.vids|, k requires 0 <= k < |m.vids| => Slot(m, idx, m.num, k)))
  }

  lemma IndexUnique(p: seq<nat>, vid: nat, idx: nat)
    requires vid in p ==> idx < |p| && p[idx] == vid && vid !in p[..idx]
    requires vid !in p ==> idx == 0
    ensures idx == IndexIn(p, vid)
  {
  }

  lemma {:induction false} WithoutAt(p: seq<nat>, vid: nat, idx: nat)
    requires idx < |p| && p[idx] == vid && vid !in p[..idx]
    ensures Without(p, vid) == p[..idx] + p[idx + 1..]
  {
    if idx > 0 {
      var t := p[1..];
      assert p[0] != vid by { assert p[0] == p[..idx][0]; }
      assert t[..idx - 1] == p[1..idx] == p[..idx][1..];
      WithoutAt(t, vid, idx - 1);
      assert t[idx..] == p[idx + 1..];
      assert p[..idx] == [p[0]] + p[1..idx];
      assert Without(p, vid) == [p[0]] + (p[1..idx] + p[idx + 1..]);
    }
  }

  /** The count and the shift together: a listed vid is removed; an absent one costs
      the plan its first entry, and the count of an empty plan wraps. */
  lemma ShrinkMeaning(m: Memory, vid: nat)
    requires m.num <= |m.vids| <= MAX_VHOSTS
    ensures var p, m' := m.vids[..m.num], Shrink(m, vid);
      && |m'.vids| == |m.vids|
      && (m.num > 0 ==> m'.num == m.num - 1)
      && (m.num > 0 ==> m'.vids[..m'.num] == if vid in p then Without(p, vid) else p[1..])
      && (m.num == 0 ==> m'.num == COUNTER16 - 1)
  {
    var p := m.vids[..m.num];
    var idx := IndexIn(p, vid);
    if m.num > 0 {
      var q := Shrink(m, vid).vids[..m.num - 1];
      assert q[..idx] == p[..idx];
      assert q[idx..] == p[idx + 1..];
      assert q == q[..idx] + q[idx..];
      if vid in p {
        WithoutAt(p, vid, idx);
      }
    }
  }

  // ----- Replanning

  /** The members of `s` below `n`, ascending. */
  function Ascending(s: set<nat>, n: nat): (r: seq<nat>)
    ensures forall v :: v in r <==> v in s && v < n
  {
    if n == 0 then []
    else if n - 1 in s then Ascending(s, n - 1) + [n - 1]
    else Ascending(s, n - 1)
  }

  function ActiveSet(plan: seq<nat>, live: set<nat>, busy: set<nat>): set<nat> {
    set v | v in plan && v in live && v in busy
  }

  function ProbeSet(active: set<nat>, live: set<nat>, core: seq<nat>, i: nat): set<nat> {
    set v | v in live && v !in active && v < |core| && core[v] == i
  }

  function NewPlan(plan: seq<nat>, live: set<nat>, core: seq<nat>, i: nat, busy: set<nat>, n: nat): seq<nat> {
    var active := ActiveSet(plan, live, busy);
    Ascending(active, n) + Ascending(ProbeSet(active, live, core, i), n)
  }

  /** `busy[i]` holds the vids whose window on core `i` is over a threshold. */
  function Replan(t: Table, live: set<nat>, busy: seq<set<nat>>): Table
    requires |busy| == |t.plans|
  {
    t.(plans := seq(|t.plans|, i requires 0 <= i < |t.plans| =>
                      NewPlan(t.plans[i], live, t.core, i, busy[i], MAX_VHOSTS)))
  }

  /** On the TX side every planned live vid counts as active. */
  function ReplanTx(t: Table, live: set<nat>): Table {
    Replan(t, live, seq(|t.plans|, i => live))
  }

  // ----- Each operation keeps the invariant

  lemma AddKeepsInv(t: Table, live: set<nat>, vid: nat)
    requires Inv(t, live) && vid < MAX_VHOSTS && vid !in live
    ensures AddFits(t)
    ensures Inv(Add(t, vid), live + {vid})
  {
    var c := FirstLeast(t.plans);
    NoDupBound(t.plans[c], MAX_VHOSTS, vid);
    var t' := Add(t, vid);
    forall i, v | 0 <= i < |t'.plans|
      ensures v in t'.plans[i] <==> v in live + {vid} && t'.core[v] == i
    {
      assert v in t.plans[i] <==> v in live && t.core[v] == i;
    }
  }

  lemma {:induction false} WithoutMembers(p: seq<nat>, vid: nat)
    requires NoDup(p)
    ensures NoDup(Without(p, vid))
    ensures forall v :: v in Without(p, vid) <==> v in p && v != vid
  {
    if p != [] {
      var tail := p[1..];
      WithoutMembers(tail, vid);
      assert p == [p[0]] + tail;
      assert p[0] !in tail;
      if p[0] != vid {
        var w := Without(tail, vid);
        assert p[0] !in w;
        assert Without(p, vid) == [p[0]] + w;
      }
    }
  }

  lemma RemoveKeepsInv(t: Table, live: set<nat>, vid: nat)
    requires Inv(t, live) && vid in live
    ensures FindCore(t.plans, vid) == t.core[vid]
    ensures Inv(Remove(t, vid), live - {vid})
  {
    var c := FindCore(t.plans, vid);
    assert vid in t.plans[t.core[vid]];
    WithoutMembers(t.plans[c], vid);
    var t' := Remove(t, vid);
    forall i, v | 0 <= i < |t'.plans|
      ensures v in t'.plans[i] <==> v in live - {vid} && t'.core[v] == i
    {
      assert v in t.plans[i] <==> v in live && t.core[v] == i;
    }
  }

  lemma {:induction false} AscendingNoDup(s: set<nat>, n: nat)
    ensures NoDup(Ascending(s, n))
    ensures forall i, j :: 0 <= i < j < |Ascending(s, n)| ==> Ascending(s, n)[i] < Ascending(s, n)[j]
  {
    if n > 0 {
      AscendingNoDup(s, n - 1);
      var r := Ascending(s, n - 1);
      assert forall i :: 0 <= i < |r| ==> r[i] in r;
    }
  }

  lemma NoDupConcat(a: seq<nat>, b: seq<nat>)
    requires NoDup(a) && NoDup(b)
    requires forall v :: v in a ==> v !in b
    ensures NoDup(a + b)
  {
    var c := a + b;
    forall i, j | 0 <= i < j < |c|
      ensures c[i] != c[j]
    {
      if i < |a| <= j {
        assert c[i] in a && c[j] in b;
      }
    }
  }

  /** Whatever the statistics say, a new plan permutes the old one: the active
      vids ascending, then the rest ascending. */
  lemma NewPlanPermutes(t: Table, live: set<nat>, i: nat, busy: set<nat>, n: nat)
    requires Inv(t, live) && i < |t.plans| && n == MAX_VHOSTS
    ensures var p := NewPlan(t.plans[i], live, t.core, i, busy, n);
      && NoDup(p)
      && (forall v :: v in p <==> v in t.plans[i])
      && |p| == |t.plans[i]|
      && p == Ascending(Elements(t.plans[i]) * busy, n) + Ascending(Elements(t.plans[i]) - busy, n)
  {
    var prev := t.plans[i];
    var active := ActiveSet(prev, live, busy);
    var probe := ProbeSet(active, live, t.core, i);
    assert active == Elements(prev) * busy;
    assert probe == Elements(prev) - busy;
    var a, b := Ascending(active, n), Ascending(probe, n);
    AscendingNoDup(active, n);
    AscendingNoDup(probe, n);
    NoDupConcat(a, b);
    SameMembersSameLength(a + b, prev);
  }

  ghost predicate StrictlyAscending(p: seq<nat>) {
    forall i, j :: 0 <= i < j < |p| ==> p[i] < p[j]
  }

  /** The new plan lists the busy members of the old one ascending and then the
      others ascending. */
  ghost predicate BusyFirst(p: seq<nat>, p': seq<nat>, busy: set<nat>) {
    exists k: nat :: BusyUpTo(p, p', busy, k)
  }

  ghost predicate BusyUpTo(p: seq<nat>, p': seq<nat>, busy: set<nat>, k: nat) {
    && k <= |p'| && StrictlyAscending(p'[..k]) && StrictlyAscending(p'[k..])
    && (forall v :: v in p'[..k] <==> v in p && v in busy)
    && (forall v :: v in p'[k..] <==> v in p && v !in busy)
  }

  ghost predicate Reordered(t: Table, t': Table, busy: seq<set<nat>>) {
    && t'.core == t.core && |t'.plans| == |t.plans| == |busy|
    && forall i :: 0 <= i < |t.plans| ==> BusyFirst(t.plans[i], t'.plans[i], busy[i])
  }

  /** After a TX replan every plan is its old members in ascending order. */
  ghost predicate SortedAll(t: Table, t': Table) {
    && t'.core == t.core && |t'.plans| == |t.plans|
    && forall i :: 0 <= i < |t.plans| ==>
         StrictlyAscending(t'.plans[i]) && forall v :: v in t'.plans[i] <==> v in t.plans[i]
  }

  lemma NewPlanBusyFirst(t: Table, live: set<nat>, i: nat, busy: set<nat>, n: nat)
    requires Inv(t, live) && i < |t.plans| && n == MAX_VHOSTS
    ensures BusyFirst(t.plans[i], NewPlan(t.plans[i], live, t.core, i, busy, n), busy)
    ensures live <= busy ==> StrictlyAscending(NewPlan(t.plans[i], live, t.core, i, busy, n))
  {
    NewPlanPermutes(t, live, i, busy, n);
    var p := t.plans[i];
    var a, b := Ascending(Elements(p) * busy, n), Ascending(Elements(p) - busy, n);
    AscendingNoDup(Elements(p) * busy, n);
    AscendingNoDup(Elements(p) - busy, n);
    var q := a + b;
    assert q[..|a|] == a && q[|a|..] == b;
    assert BusyUpTo(p, q, busy, |a|);
    if live <= busy {
      forall v
        ensures v !in b
      {
        assert v in p <==> v in live && t.core[v] == i;
      }
      NoMembers(b);
    }
  }

  lemma NoMembers(s: seq<nat>)
    requires NoDup(s) && forall v :: v !in s
    ensures s == []
  {
    assert Elements(s) == {};
    NoDupSize(s);
  }

  lemma ReplanMeaning(t: Table, live: set<nat>, busy: seq<set<nat>>)
    requires Inv(t, live) && |busy| == |t.plans|
    ensures Reordered(t, Replan(t, live, busy), busy)
    ensures SortedAll(t, ReplanTx(t, live))
  {
    forall i | 0 <= i < |t.plans|
      ensures BusyFirst(t.plans[i], Replan(t, live, busy).plans[i], busy[i])
    {
      NewPlanBusyFirst(t, live, i, busy[i], MAX_VHOSTS);
    }
    forall i | 0 <= i < |t.plans|
      ensures StrictlyAscending(ReplanTx(t, live).plans[i])
      ensures forall v :: v in ReplanTx(t, live).plans[i] <==> v in t.plans[i]
    {
      NewPlanBusyFirst(t, live, i, live, MAX_VHOSTS);
      NewPlanPermutes(t, live, i, live, MAX_VHOSTS);
    }
  }

  lemma ReplanKeepsInv(t: Table, live: set<nat>, busy: seq<set<nat>>)
    requires Inv(t, live) && |busy| == |t.plans|
    ensures Inv(Replan(t, live, busy), live)
    ensures Replan(t, live, busy).core == t.core
    ensures forall i :: 0 <= i < |t.plans| ==> |Replan(t, live, busy).plans[i]| == |t.plans[i]|
  {
    var t' := Replan(t, live, busy);
    forall i | 0 <= i < |t.plans|
      ensures NoDup(t'.plans[i]) && |t'.plans[i]| == |t.plans[i]|
      ensures forall v :: v in t'.plans[i] <==> v in t.plans[i]
    {
      NewPlanPermutes(t, live, i, busy[i], MAX_VHOSTS);
    }
    forall i, v | 0 <= i < |t'.plans|
      ensures v in t'.plans[i] <==> v in live && t'.core[v] == i
    {
      assert v in t.plans[i] <==> v in live && t.core[v] == i;
    }
  }

  /** A TX replan sorts each plan, so a second one changes nothing. */
  lemma ReplanTxIdempotent(t: Table, live: set<nat>)
    requires Inv(t, live)
    ensures ReplanTx(ReplanTx(t, live), live) == ReplanTx(t, live)
  {
    var once := ReplanTx(t, live);
    var twice := ReplanTx(once, live);
    ReplanKeepsInv(t, live, seq(|t.plans|, i => live));
    forall i | 0 <= i < |t.plans|
      ensures once.plans[i] == twice.plans[i]
    {
      NewPlanPermutes(t, live, i, live, MAX_VHOSTS);
      NewPlanPermutes(once, live, i, live, MAX_VHOSTS);
      assert Elements(t.plans[i]) == Elements(once.plans[i]);
    }
    assert once.plans == twice.plans;
  }
}
