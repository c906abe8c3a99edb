/** The imperative plan updates of src/vhost/plan.c and src/slow/slowpath.c and
    the device callbacks of src/vhost/device.c, proved against Plans and Switch. */
module PlanTable {
  import opened Finite
  import opened Topology
  import opened Plans
  import Switch

  lemma FirstLeastUnique(plans: seq<seq<nat>>, c: nat)
    requires |plans| > 0 && IsFirstLeast(plans, c)
    ensures FirstLeast(plans) == c
  {
  }

  /** A private copy of a published plan, with room for every vid. */
  method CopyPlan(p: seq<nat>) returns (vids: array<nat>)
    requires |p| <= MAX_VHOSTS
    ensures fresh(vids) && vids.Length == MAX_VHOSTS && vids[..|p|] == p
  {
    vids := new nat[MAX_VHOSTS](i => 0);
    for i := 0 to |p|
      invariant vids[..i] == p[..i]
    {
      vids[i] := p[i];
    }
  }

  /** The search of plan.c:124-130; a vid that is not there gives 0. */
  method IndexOf(p: seq<nat>, vid: nat) returns (idx: nat)
    ensures vid in p ==> idx < |p| && p[idx] == vid && vid !in p[..idx]
    ensures vid !in p ==> idx == 0
  {
    idx := 0;
    for i := 0 to |p|
      invariant idx == 0 && forall k :: 0 <= k < i ==> p[k] != vid
    {
      if p[i] == vid {
        return i;
      }
    }
  }

  /** Closes the gap at the first occurrence of `vid`, or at the start when there
      is none, and counts down in 16 bits (plan.c:122-137). */
  method DropVid(m: Memory, vid: nat) returns (r: Memory)
    requires m.num <= |m.vids| == MAX_VHOSTS
    ensures r == Shrink(m, vid)
  {
    var idx := IndexOf(m.vids[..m.num], vid);
    IndexUnique(m.vids[..m.num], vid, idx);
    var vids := Shift(m, idx);
    assert vids == Shrink(m, vid).vids;
    r := Memory((m.num + COUNTER16 - 1) % COUNTER16, vids);
  }

  /** plan.c:114-137 for a plan that holds the vid. */
  method PlanWithout(p: seq<nat>, vid: nat) returns (r: seq<nat>)
    requires |p| <= MAX_VHOSTS && vid in p
    ensures r == Without(p, vid)
    ensures forall v :: v in r ==> v in p
  {
    var memory := DropVid(Stored(p), vid);
    assert Stored(p).vids[..|p|] == p;
    ShrinkMeaning(Stored(p), vid);
    WithoutSubset(p, vid);
    r := memory.vids[..memory.num];
  }

  /** plan.c:132-136 on the private copy. */
  method Shift(m: Memory, idx: nat) returns (vids: seq<nat>)
    requires m.num <= |m.vids| == MAX_VHOSTS
    ensures |vids| == MAX_VHOSTS
    ensures forall k :: 0 <= k < |vids| ==> vids[k] == Slot(m, idx, m.num, k)
  {
    var copy := new nat[MAX_VHOSTS](i requires 0 <= i < |m.vids| => m.vids[i]);
    var i := idx;
    while i < m.num - 1
      invariant idx <= i && (idx < i ==> i < m.num)
      invariant forall k :: 0 <= k < MAX_VHOSTS ==> copy[k] == Slot(m, idx, if idx < i then i + 1 else 0, k)
    {
      copy[i] := m.vids[i + 1];
      i := i + 1;
    }
    vids := copy[..];
  }

  /** One side's table: the published plans and the recorded core of each vid. */
  class Side {
    var plans: seq<seq<nat>>
    const core: array<nat>

    ghost function View(): Table
      reads this, core
    {
      Table(plans, core[..])
    }

    ghost predicate Valid()
      reads this, core
    {
      && core.Length == MAX_VHOSTS
      && Shaped(View())
      && forall i :: 0 <= i < |plans| ==> |plans[i]| <= MAX_VHOSTS
    }

    constructor (cores: nat)
      requires cores > 0
      ensures Valid() && fresh(core) && View() == Switch.EmptyTable(cores)
      ensures |plans| == cores && (forall i :: 0 <= i < cores ==> plans[i] == [])
      ensures forall v :: 0 <= v < MAX_VHOSTS ==> core[v] == 0
    {
      plans := seq(cores, i => []);
      core := new nat[MAX_VHOSTS](i => 0);
    }

    /** plan.c:48-95 and 153-200 */
    method PlanAdd(vid: nat) returns (ok: bool)
      requires Valid() && vid < MAX_VHOSTS
      modifies this, core
      ensures Valid()
      ensures ok <==> exists c :: 0 <= c < |old(plans)| && |old(plans[c])| < MAX_VHOSTS
      ensures ok == old(AddFits(View()))
      ensures ok ==> exists c :: AppendedOn(old(View()), View(), vid, c)
      ensures View() == Add(old(View()), vid)
    {
      ghost var before := View();
      var best: int := -1;
      var least := MAX_VHOSTS;
      for i := 0 to |plans|
        invariant -1 <= best < i
        invariant best == -1 ==> least == MAX_VHOSTS && forall j :: 0 <= j < i ==> |plans[j]| >= MAX_VHOSTS
        invariant best >= 0 ==> least == |plans[best]| < MAX_VHOSTS
        invariant best >= 0 ==> forall j :: 0 <= j < i ==> least <= |plans[j]|
        invariant best >= 0 ==> forall j :: 0 <= j < best ==> least < |plans[j]|
      {
        if |plans[i]| < least {
          least := |plans[i]|;
          best := i;
        }
      }
      if best == -1 {
        AddMeaning(before, vid);
        return false;
      }
      FirstLeastUnique(plans, best);
      var num := |plans[best]|;
      var vids := CopyPlan(plans[best]);
      vids[num] := vid;
      ghost var prev := plans[best];
      assert vids[..num + 1] == prev + [vid];
      plans := plans[best := vids[..num + 1]];
      core[vid] := best;
      AddMeaning(before, vid);
      return true;
    }

    /** plan.c:97-151 and 202-256 */
    method PlanRemove(vid: nat) returns (ok: bool)
      requires Valid() && vid < MAX_VHOSTS
      modifies this, core
      ensures Valid()
      ensures ok <==> exists c :: 0 <= c < |old(plans)| && vid in old(plans[c])
      ensures ok ==> exists c, i :: TakenFrom(old(View()), View(), vid, c, i)
      ensures View() == Remove(old(View()), vid)
    {
      RemoveMeaning(View(), vid);
      var found: int := -1;
      for i := 0 to |plans|
        invariant found == -1 && forall k :: 0 <= k < i ==> vid !in plans[k]
      {
        for j := 0 to |plans[i]|
          invariant found == -1 || found == i
          invariant found == i <==> vid in plans[i][..j]
        {
          if plans[i][j] == vid {
            found := i;
          }
        }
        assert plans[i][..|plans[i]|] == plans[i];
        if found != -1 {
          break;
        }
      }
      assert found == -1 ==> FindCore(plans, vid) == |plans|;
      assert found != -1 ==> FindCore(plans, vid) == found;
      if found == -1 {
        return false;
      }
      var shorter := PlanWithout(plans[found], vid);
      plans := plans[found := shorter];
      core[vid] := 0;
      return true;
    }

    /** slowpath.c:116-147 and 169-195: the new plan of one core. The cut-off on
        the plan's length never turns a live VM away. */
    method BuildPlan(i: nat, vdevs: seq<bool>, busy: seq<bool>) returns (plan: seq<nat>)
      requires Valid() && i < |plans|
      requires |vdevs| == |busy| == MAX_VHOSTS
      ensures plan == NewPlan(plans[i], Marked(vdevs), core[..], i, Marked(busy), MAX_VHOSTS)
    {
      var isActive := new bool[MAX_VHOSTS](_ => false);
      for j := 0 to |plans[i]|
        invariant fresh(isActive)
        invariant forall v :: 0 <= v < MAX_VHOSTS ==>
          (isActive[v] <==> v in plans[i][..j] && vdevs[v] && busy[v])
      {
        var vid := plans[i][j];
        assert vid in plans[i];
        if vdevs[vid] {
          isActive[vid] := busy[vid];
        }
      }
      assert plans[i][..|plans[i]|] == plans[i];
      ghost var active := ActiveSet(plans[i], Marked(vdevs), Marked(busy));
      assert forall v :: 0 <= v < MAX_VHOSTS ==> (isActive[v] <==> v in active);
      plan := [];
      var j := 0;
      while j < MAX_VHOSTS
        invariant 0 <= j <= MAX_VHOSTS
        invariant plan == Ascending(active, j)
      {
        if isActive[j] {
          plan := plan + [j];
        }
        j := j + 1;
      }
      ghost var probe := ProbeSet(active, Marked(vdevs), core[..], i);
      ghost var first := plan;
      j := 0;
      while j < MAX_VHOSTS && |plan| < MAX_PKT_BURST
        invariant 0 <= j <= MAX_VHOSTS
        invariant plan == first + Ascending(probe, j)
      {
        assert j in probe <==> vdevs[j] && !isActive[j] && core[j] == i;
        if !isActive[j] && vdevs[j] && core[j] == i {
          plan := plan + [j];
        }
        j := j + 1;
      }
      CutOffHarmless(active, probe, j, MAX_VHOSTS);
    }

    /** slowpath.c:79-150 and 152-198: every core in turn. */
    method ReplanSide(vdevs: seq<bool>, busy: seq<seq<bool>>)
      requires Valid() && |vdevs| == MAX_VHOSTS && |busy| == |plans|
      requires forall i :: 0 <= i < |busy| ==> |busy[i]| == MAX_VHOSTS
      modifies this
      ensures Valid()
      ensures View() == Replan(old(View()), Marked(vdevs), MarkedAll(busy))
    {
      ghost var before := View();
      ghost var goal := Replan(before, Marked(vdevs), MarkedAll(busy));
      for i := 0 to |plans|
        invariant |plans| == |before.plans| && core[..] == before.core
        invariant Valid()
        invariant plans[..i] == goal.plans[..i] && plans[i..] == before.plans[i..]
      {
        assert plans[i] == plans[i..][0];
        var next := BuildPlan(i, vdevs, busy[i]);
        assert next == goal.plans[i];
        NewPlanBound(plans[i], Marked(vdevs), core[..], i, Marked(busy[i]), MAX_VHOSTS);
        plans := plans[i := next];
      }
      assert plans == goal.plans;
    }
  }

  function Marked(flags: seq<bool>): (r: set<nat>)
    ensures forall v: nat :: v in r <==> v < |flags| && flags[v]
  {
    set v: nat | v < |flags| && flags[v]
  }

  function MarkedAll(flags: seq<seq<bool>>): (r: seq<set<nat>>)
    ensures |r| == |flags|
    ensures forall i, v: nat :: 0 <= i < |flags| ==> (v in r[i] <==> v < |flags[i]| && flags[i][v])
  {
    seq(|flags|, i requires 0 <= i < |flags| => Marked(flags[i]))
  }

  lemma {:induction false} WithoutSubset(p: seq<nat>, vid: nat)
    ensures forall v :: v in Without(p, vid) ==> v in p
  {
    if p != [] {
      WithoutSubset(p[1..], vid);
    }
  }

  /** If the new plan is full after the probes below `j`, no probe is left. */
  lemma CutOffHarmless(active: set<nat>, probe: set<nat>, j: nat, n: nat)
    requires active !! probe && j <= n
    requires j == n || |Ascending(active, n) + Ascending(probe, j)| >= n
    ensures Ascending(probe, n) == Ascending(probe, j)
  {
    if j < n {
      var a, b := Ascending(active, n), Ascending(probe, j);
      AscendingNoDup(active, n);
      AscendingNoDup(probe, j);
      NoDupConcat(a, b);
      NoDupSize(a + b);
      FullSubset(Elements(a + b), Below(n));
      forall v | j <= v < n
        ensures v !in probe
      {
        assert v in Elements(a + b);
      }
      NothingAbove(probe, j, n);
    }
  }

  lemma {:induction false} NothingAbove(s: set<nat>, j: nat, n: nat)
    requires j <= n && forall v :: j <= v < n ==> v !in s
    ensures Ascending(s, n) == Ascending(s, j)
  {
    if j < n {
      NothingAbove(s, j, n - 1);
    }
  }

  lemma NewPlanBound(plan: seq<nat>, live: set<nat>, core: seq<nat>, i: nat, busy: set<nat>, n: nat)
    ensures var p := NewPlan(plan, live, core, i, busy, n);
      |p| <= n && forall v :: v in p ==> v < n
  {
    var active := ActiveSet(plan, live, busy);
    var probe := ProbeSet(active, live, core, i);
    AscendingNoDup(active, n);
    AscendingNoDup(probe, n);
    NoDupConcat(Ascending(active, n), Ascending(probe, n));
    NoDupBound(NewPlan(plan, live, core, i, busy, n), n, n);
  }

  /** The device callbacks over the list and both sides. */
  class Devices {
    var vdevs: seq<bool>
    var num: int
    var ready: seq<Readiness>
    const rx: Side
    const tx: Side

    ghost predicate Valid()
      reads this, rx, rx.core, tx, tx.core
    {
      && rx != tx && rx.core != tx.core
      && |vdevs| == |ready| == MAX_VHOSTS
      && rx.Valid() && tx.Valid()
    }

    ghost function View(): Switch.State
      reads this, rx, rx.core, tx, tx.core
    {
      Switch.State(Marked(vdevs), num, rx.View(), tx.View())
    }

    constructor (rxCores: nat, txCores: nat)
      requires rxCores > 0 && txCores > 0
      ensures Valid() && View() == Switch.Initial(rxCores, txCores)
      ensures num == 0 && (forall v :: 0 <= v < MAX_VHOSTS ==> !vdevs[v])
    {
      vdevs := seq(MAX_VHOSTS, i => false);
      num := 0;
      ready := seq(MAX_VHOSTS, i => MacLearning);
      rx := new Side(rxCores);
      tx := new Side(txCores);
      new;
      assert Marked(vdevs) == {};
    }

    /** device.c:108-191 */
    method NewDevice(vid: nat) returns (ok: bool)
      requires Valid() && vid < MAX_VHOSTS
      modifies this, rx, rx.core, tx, tx.core
      ensures Valid()
      ensures View() == Switch.AttachDevice(old(View()), vid)
      ensures old(Switch.Safe(View()) && vid !in View().live) ==> ok
      ensures ok ==> View().live == old(View().live) + {vid} && num == old(num) + 1
      ensures ok ==> exists c :: AppendedOn(old(rx.View()), rx.View(), vid, c)
      ensures ok ==> exists c :: AppendedOn(old(tx.View()), tx.View(), vid, c)
      ensures ready == if old(num) < MAX_VHOSTS then old(ready)[vid := MacLearning] else old(ready)
    {
      ghost var s0 := View();
      Switch.AttachFits(s0, vid);
      if num >= MAX_VHOSTS {
        return false;
      }
      ghost var before := Marked(vdevs);
      vdevs := vdevs[vid := true];
      assert Marked(vdevs) == before + {vid};
      num := num + 1;
      ready := ready[vid := MacLearning];
      ok := AddToBoth(vid);
    }

    /** device.c:176-187 */
    method AddToBoth(vid: nat) returns (ok: bool)
      requires Valid() && vid < MAX_VHOSTS
      modifies rx, rx.core, tx, tx.core
      ensures Valid()
      ensures rx.View() == Add(old(rx.View()), vid)
      ensures tx.View() == if old(AddFits(rx.View())) then Add(old(tx.View()), vid) else old(tx.View())
      ensures ok == old(AddFits(rx.View()) && AddFits(tx.View()))
      ensures ok ==> exists c :: AppendedOn(old(rx.View()), rx.View(), vid, c)
      ensures ok ==> exists c :: AppendedOn(old(tx.View()), tx.View(), vid, c)
    {
      ok := rx.PlanAdd(vid);
      if !ok {
        return;
      }
      ok := tx.PlanAdd(vid);
    }

    /** device.c:45-104. The device is marked safe to remove before it is checked,
        so the early return of device.c:68-72 needs interference from outside. */
    method DestroyDevice(vid: nat)
      requires Valid() && vid < MAX_VHOSTS
      modifies this, rx, rx.core, tx, tx.core
      ensures Valid()
      ensures View() == Switch.DetachDevice(old(View()), vid)
      ensures ready == if old(vdevs[vid]) then old(ready)[vid := SafeRemove] else old(ready)
      ensures old(Switch.Safe(View()) && vid in View().live) ==>
        && View().live == old(View().live) - {vid} && num == old(num) - 1
        && (exists c, i :: TakenFrom(old(rx.View()), rx.View(), vid, c, i))
        && (exists c, i :: TakenFrom(old(tx.View()), tx.View(), vid, c, i))
    {
      ghost var s0 := View();
      if Switch.Safe(s0) && vid in s0.live {
        Switch.DetachSucceeds(s0, vid);
      }
      if !vdevs[vid] {
        return;
      }
      ready := ready[vid := SafeRemove];
      if ready[vid] != SafeRemove {
        assert false;
      }
      ghost var before := Marked(vdevs);
      vdevs := vdevs[vid := false];
      assert Marked(vdevs) == before - {vid};
      num := num - 1;
      var ok := rx.PlanRemove(vid);
      if !ok {
        return;
      }
      ok := tx.PlanRemove(vid);
    }

    /** slowpath.c:64-66: both sides are rebuilt; on the TX side a planned vid is
        active when it is still listed. */
    method ReplanBoth(busy: seq<seq<bool>>)
      requires Valid() && |busy| == |rx.plans|
      requires forall i :: 0 <= i < |busy| ==> |busy[i]| == MAX_VHOSTS
      modifies rx, tx
      ensures Valid()
      ensures View() == Switch.Step(old(View()), Switch.ReplanAll(MarkedAll(busy)))
      ensures vdevs == old(vdevs) && num == old(num) && ready == old(ready)
      ensures old(Switch.Safe(View())) ==>
        Reordered(old(rx.View()), rx.View(), MarkedAll(busy)) && SortedAll(old(tx.View()), tx.View())
    {
      ghost var s0 := View();
      if Switch.Safe(s0) {
        Switch.ReplanReorders(s0, MarkedAll(busy));
      }
      rx.ReplanSide(vdevs, busy);
      var listed, cores := vdevs, |tx.plans|;
      var all := seq(cores, _ => listed);
      tx.ReplanSide(listed, all);
      ghost var live := Marked(listed);
      assert MarkedAll(all) == seq(cores, i => live);
    }
  }
}
