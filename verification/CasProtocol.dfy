/** Attach and detach at the level of single loads and compare-and-swaps, for
    every interleaving of callbacks on distinct vids with one another and with the
    slow path's address learning, with no replan in flight
    (src/vhost/device.c:45-191, src/vhost/plan.c:48-256, src/vhost/vmdq.c:56, 93). */
module CasProtocol {
  import opened Finite
  import opened Topology
  import Plans

  /** A published pointer: each successful swap installs a fresh version. */
  datatype Reg<T> = Reg(ver: nat, val: T)

  datatype List = List(num: int, vdevs: set<nat>)
  datatype Kind = Attach | Detach
  datatype Op = Op(kind: Kind, vid: nat)
  datatype SideName = Rx | Tx

  /** Where a callback stands between two accesses to shared memory; `loaded` is
      the history of a scan, the plans it has read so far. */
  datatype Pc =
    | ListCheck
    | Unlink
    | ListLoad
    | ReadyCheck(listSeen: Reg<List>)
    | ListCas(listSeen: Reg<List>)
    | Scan(side: SideName, next: nat, best: int, least: nat, loaded: seq<seq<nat>>)
    | PlanLoad(side: SideName, at: nat)
    | PlanCas(side: SideName, at: nat, planSeen: Reg<seq<nat>>)
    | Record(side: SideName, at: nat)
    | Idle
    | GaveUp
    | Aborted

  /** The callback running for a vid. `fails` counts failed swaps that found a
      newer version, `wins` successful ones; `base` and `mark` are the total of
      successful swaps at its start and, less its own, at its last load. */
  datatype Thread = Thread(kind: Kind, pc: Pc, fails: nat, wins: nat, base: nat, mark: int)

  /** One side: plans, their histories of successful swaps, recorded cores, and
      where each vid was put. */
  datatype Side = Side(plans: seq<Reg<seq<nat>>>, logs: seq<seq<Op>>, core: seq<nat>, loc: map<nat, nat>)

  /** `ready` is the state of each vid's latest device. */
  datatype State = State(list: Reg<List>, log: seq<Op>, ready: seq<Readiness>, rx: Side, tx: Side,
                         threads: seq<Thread>, total: nat)

  // ----- What a callback builds from the version it loaded

  function BuildList(op: Op, old': List): List {
    match op.kind
    case Attach => List(old'.num + 1, old'.vdevs + {op.vid})
    case Detach => List(old'.num - 1, old'.vdevs - {op.vid})
  }

  /** plan.c:124-136: when the vid is not found the index stays 0. On an empty plan
      the code's counter would wrap (`Plans.Shrink`); under the invariant a detach
      only meets plans that hold its vid, so that case is never reached here. */
  function BuildPlan(op: Op, old': seq<nat>): seq<nat> {
    match op.kind
    case Attach => old' + [op.vid]
    case Detach =>
      if op.vid in old' then Plans.Without(old', op.vid)
      else if old' == [] then [] else old'[1..]
  }

  function ReplayList(log: seq<Op>): List {
    if log == [] then List(0, {})
    else BuildList(log[|log| - 1], ReplayList(log[..|log| - 1]))
  }

  function ReplayPlan(log: seq<Op>): seq<nat> {
    if log == [] then []
    else BuildPlan(log[|log| - 1], ReplayPlan(log[..|log| - 1]))
  }

  // ----- Transitions

  function SideOf(s: State, n: SideName): Side {
    if n.Rx? then s.rx else s.tx
  }

  function WithSide(s: State, n: SideName, x: Side): State {
    if n.Rx? then s.(rx := x) else s.(tx := x)
  }

  predicate Shaped(s: State) {
    && |s.threads| == MAX_VHOSTS && |s.ready| == MAX_VHOSTS
    && SideShaped(s.rx) && SideShaped(s.tx)
  }

  predicate SideShaped(x: Side) {
    && |x.plans| > 0 && |x.logs| == |x.plans| && |x.core| == MAX_VHOSTS
  }

  predicate PcShaped(s: State, pc: Pc) {
    match pc
    case Scan(n, next, best, _, loaded) => next == |loaded| <= |SideOf(s, n).plans| && best < |SideOf(s, n).plans|
    case PlanLoad(n, c) => c < |SideOf(s, n).plans|
    case PlanCas(n, c, _) => c < |SideOf(s, n).plans|
    case Record(n, c) => c < |SideOf(s, n).plans|
    case _ => true
  }

  function Goto(s: State, v: nat, pc: Pc): State
    requires v < |s.threads|
  {
    s.(threads := s.threads[v := s.threads[v].(pc := pc)])
  }

  /** Successful swaps by other callbacks since this one began. */
  function Others(s: State, th: Thread): int {
    s.total - th.base - th.wins
  }

  function Loaded(s: State, v: nat, pc: Pc): State
    requires v < |s.threads|
  {
    var th := s.threads[v];
    s.(threads := s.threads[v := th.(pc := pc, mark := Others(s, th))])
  }

  function Won(s: State, v: nat, pc: Pc): State
    requires v < |s.threads|
  {
    var th := s.threads[v];
    s.(threads := s.threads[v := th.(pc := pc, wins := th.wins + 1)], total := s.total + 1)
  }

  function Lost(s: State, v: nat, pc: Pc): State
    requires v < |s.threads|
  {
    var th := s.threads[v];
    s.(threads := s.threads[v := th.(pc := pc, fails := th.fails + 1)])
  }

  function ListCasStep(s: State, v: nat, seen: Reg<List>): State
    requires Shaped(s) && v < MAX_VHOSTS
  {
    var op := Op(s.threads[v].kind, v);
    if op.kind.Attach? && seen.val.num >= MAX_VHOSTS then Goto(s, v, Aborted)
    else if seen.ver == s.list.ver then
      Won(s.(list := Reg(s.list.ver + 1, BuildList(op, seen.val)), log := s.log + [op]), v,
          StartScan(Rx))
    else Lost(s, v, ListLoad)
  }

  function StartScan(n: SideName): Pc {
    Scan(n, 0, -1, MAX_VHOSTS, [])
  }

  /** One load of the scan: the least-loaded plan on attach, the plan that holds
      the vid on detach. */
  function ScanStep(s: State, v: nat): State
    requires Shaped(s) && v < MAX_VHOSTS && s.threads[v].pc.Scan? && PcShaped(s, s.threads[v].pc)
  {
    var Scan(n, next, best, least, loaded) := s.threads[v].pc;
    var plans := SideOf(s, n).plans;
    if next == |plans| then
      (if best < 0 then Goto(s, v, Aborted) else Goto(s, v, PlanLoad(n, best)))
    else
      var plan := plans[next].val;
      if s.threads[v].kind.Attach? then
        if |plan| < least then Goto(s, v, Scan(n, next + 1, next, |plan|, loaded + [plan]))
        else Goto(s, v, Scan(n, next + 1, best, least, loaded + [plan]))
      else if v in plan then Goto(s, v, PlanLoad(n, next))
      else Goto(s, v, Scan(n, next + 1, best, least, loaded + [plan]))
  }

  function PlanCasStep(s: State, v: nat, n: SideName, c: nat, seen: Reg<seq<nat>>): State
    requires Shaped(s) && v < MAX_VHOSTS && c < |SideOf(s, n).plans|
  {
    var x := SideOf(s, n);
    var op := Op(s.threads[v].kind, v);
    if op.kind.Attach? && |seen.val| >= MAX_VHOSTS then Goto(s, v, Aborted)
    else if seen.ver == x.plans[c].ver then
      Won(WithSide(s, n, Swap(x, op, c, seen.val)), v, Record(n, c))
    else Lost(s, v, PlanLoad(n, c))
  }

  function Swap(x: Side, op: Op, c: nat, old': seq<nat>): Side
    requires c < |x.plans| && |x.logs| == |x.plans|
  {
    x.(plans := x.plans[c := Reg(x.plans[c].ver + 1, BuildPlan(op, old'))],
       logs := x.logs[c := x.logs[c] + [op]],
       loc := if op.kind.Attach? then x.loc[op.vid := c] else x.loc - {op.vid})
  }

  /** plan.c:91 and plan.c:148: the recorded core is written after the swap. */
  function RecordStep(s: State, v: nat, n: SideName, c: nat): State
    requires Shaped(s) && v < MAX_VHOSTS
  {
    var x := SideOf(s, n);
    var x' := x.(core := x.core[v := if s.threads[v].kind.Attach? then c else 0]);
    Goto(WithSide(s, n, x'), v, if n.Rx? then StartScan(Tx) else Idle)
  }

  function CheckStep(s: State, v: nat): State
    requires Shaped(s) && v < MAX_VHOSTS
  {
    if s.threads[v].kind.Attach? && s.list.val.num >= MAX_VHOSTS then Goto(s, v, Aborted)
    else if s.threads[v].kind.Attach? then Goto(s, v, ListLoad)
    else if v !in s.list.val.vdevs then Goto(s, v, Aborted)
    else Goto(s, v, Unlink)
  }

  /** device.c:52 and vmdq.c:93: the device is marked safe to remove. */
  function UnlinkStep(s: State, v: nat): State
    requires Shaped(s) && v < MAX_VHOSTS
  {
    Goto(s.(ready := s.ready[v := SafeRemove]), v, ListLoad)
  }

  /** device.c:63-72: a detach returns when its device is no longer safe to remove. */
  function ReadyStep(s: State, v: nat, seen: Reg<List>): State
    requires Shaped(s) && v < MAX_VHOSTS
  {
    if v !in seen.val.vdevs then Goto(s, v, Aborted)
    else if s.ready[v] != SafeRemove then Goto(s, v, GaveUp)
    else Goto(s, v, ListCas(seen))
  }

  datatype Action =
    | Begin(vid: nat, kind: Kind)
    | Run(vid: nat)
    | Spurious(vid: nat)
    | Learn(vid: nat)

  /** A callback starts when none runs for its vid; only a free vid is attached
      and only a listed one detached. A weak swap may fail for no reason. The slow
      path learns the address of a device that has been listed, perhaps from a
      version of the list that is no longer current. */
  predicate Enabled(s: State, a: Action) {
    && a.vid < MAX_VHOSTS && |s.threads| == MAX_VHOSTS
    && PcShaped(s, s.threads[a.vid].pc)
    && match a
       case Begin(v, k) => Done(s.threads[v].pc) && (k.Attach? <==> v !in s.list.val.vdevs)
       case Run(v) => true
       case Learn(v) => s.threads[v].kind.Attach? ==> Stage(s.threads[v].pc) > 0
       case Spurious(v) => s.threads[v].pc.ListCas? || s.threads[v].pc.PlanCas?
  }

  /** No callback is running. */
  predicate Done(pc: Pc) {
    pc.Idle? || pc.GaveUp?
  }

  function RunStep(s: State, v: nat): State
    requires Shaped(s) && v < MAX_VHOSTS && PcShaped(s, s.threads[v].pc)
  {
    match s.threads[v].pc
    case ListCheck => CheckStep(s, v)
    case Unlink => UnlinkStep(s, v)
    case ListLoad => Loaded(s, v, if s.threads[v].kind.Attach? then ListCas(s.list) else ReadyCheck(s.list))
    case ReadyCheck(seen) => ReadyStep(s, v, seen)
    case ListCas(seen) => ListCasStep(s, v, seen)
    case Scan(_, _, _, _, _) => ScanStep(s, v)
    case PlanLoad(n, c) => Loaded(s, v, PlanCas(n, c, SideOf(s, n).plans[c]))
    case PlanCas(n, c, seen) => PlanCasStep(s, v, n, c, seen)
    case Record(n, c) => RecordStep(s, v, n, c)
    case _ => s
  }

  function Step(s: State, a: Action): State
    requires Shaped(s) && Enabled(s, a)
  {
    match a
    case Begin(v, k) =>
      s.(threads := s.threads[v := Thread(k, ListCheck, 0, 0, s.total, 0)],
         ready := if k.Attach? then s.ready[v := MacLearning] else s.ready)
    case Run(v) => RunStep(s, v)
    case Learn(v) => s.(ready := s.ready[v := DeviceRx])
    case Spurious(v) =>
      Goto(s, v, if s.threads[v].pc.ListCas? then ListLoad else PlanLoad(s.threads[v].pc.side, s.threads[v].pc.at))
  }

  // ----- The invariant

  ghost predicate ListOk(l: List) {
    && l.num == |l.vdevs|
    && forall v :: v in l.vdevs ==> v < MAX_VHOSTS
  }

  ghost predicate SideOk(x: Side) {
    && SideShaped(x)
    && (forall v :: v in x.loc ==> v < MAX_VHOSTS && x.loc[v] < |x.plans|)
    && (forall v :: 0 <= v < MAX_VHOSTS ==> x.core[v] < |x.plans|)
    && (forall c :: 0 <= c < |x.plans| ==> NoDup(x.plans[c].val))
    && (forall c :: 0 <= c < |x.plans| ==> x.plans[c].val == ReplayPlan(x.logs[c]))
    && (forall c, v :: 0 <= c < |x.plans| ==> (v in x.plans[c].val <==> v in x.loc && x.loc[v] == c))
  }

  /** Shared memory: contents are the replay of every successful swap. */
  ghost predicate Good(s: State) {
    && Shaped(s)
    && ListOk(s.list.val) && s.list.val == ReplayList(s.log)
    && SideOk(s.rx) && SideOk(s.tx)
  }

  /** How far a callback has got: 0 nowhere (a detach that gave up too), 1 listed, 2 swapped on RX, 3 recorded there,
      4 swapped on TX, 5 recorded there. */
  function Stage(pc: Pc): nat {
    match pc
    case ListCheck => 0
    case Unlink => 0
    case ListLoad => 0
    case ReadyCheck(_) => 0
    case ListCas(_) => 0
    case Scan(n, _, _, _, _) => if n.Rx? then 1 else 3
    case PlanLoad(n, _) => if n.Rx? then 1 else 3
    case PlanCas(n, _, _) => if n.Rx? then 1 else 3
    case Record(n, _) => if n.Rx? then 2 else 4
    case Idle => 5
    case GaveUp => 0
    case Aborted => 6
  }

  ghost predicate Seen<T>(seen: Reg<T>, now: Reg<T>) {
    seen.ver <= now.ver && (seen.ver == now.ver ==> seen == now)
  }

  /** The side as its own vid's callback knows it. */
  ghost predicate SideView(x: Side, v: nat, placed: bool, recorded: bool)
    requires v < |x.core|
  {
    && (v in x.loc <==> placed)
    && (placed && recorded ==> x.core[v] == x.loc[v])
  }

  /** The version of the list that `v`'s callback has loaded. */
  ghost predicate ListSeen(s: State, v: nat, seen: Reg<List>)
    requires Shaped(s) && v < MAX_VHOSTS
  {
    var th := s.threads[v];
    && Seen(seen, s.list) && ListOk(seen.val)
    && (v in seen.val.vdevs <==> th.kind.Detach?)
    && th.fails <= th.mark && th.mark + (s.list.ver - seen.ver) <= Others(s, th)
  }

  ghost predicate PcInv(s: State, v: nat)
    requires Shaped(s) && v < MAX_VHOSTS
  {
    var th := s.threads[v];
    match th.pc
    case Unlink => th.kind.Detach?
    case GaveUp => th.kind.Detach?
    case ReadyCheck(seen) => th.kind.Detach? && ListSeen(s, v, seen)
    case ListCas(seen) => ListSeen(s, v, seen)
    case Scan(n, next, best, least, loaded) =>
      var x := SideOf(s, n);
      && next == |loaded| <= |x.plans| && -1 <= best < |x.plans|
      && (th.kind.Attach? && next == 0 ==> best == -1 && least == MAX_VHOSTS)
      && (th.kind.Attach? && next > 0 ==>
            0 <= best && Plans.IsFirstLeast(loaded, best) && least == |loaded[best]|)
      && (th.kind.Detach? ==> best == -1 && v in x.loc && next <= x.loc[v] < |x.plans|)
    case PlanLoad(n, c) =>
      var x := SideOf(s, n);
      c < |x.plans| && (th.kind.Detach? ==> v in x.loc && x.loc[v] == c)
    case PlanCas(n, c, seen) =>
      var x := SideOf(s, n);
      && c < |x.plans| && Seen(seen, x.plans[c])
      && (th.kind.Detach? ==> v in x.loc && x.loc[v] == c)
      && (v in seen.val <==> th.kind.Detach?)
      && |seen.val| + (if th.kind.Attach? then 1 else 0) <= MAX_VHOSTS
      && th.fails <= th.mark && th.mark + (x.plans[c].ver - seen.ver) <= Others(s, th)
    case Record(n, c) =>
      var x := SideOf(s, n);
      c < |x.plans| && (th.kind.Attach? ==> v in x.loc && x.loc[v] == c)
    case _ => true
  }

  /** What holds of one vid: its callback never aborts, its membership of the
      list and of each side follows its stage, and it has lost no more swaps than
      others have won. */
  ghost predicate VidInv(s: State, v: nat)
    requires Shaped(s) && v < MAX_VHOSTS
  {
    var th := s.threads[v];
    var stage := Stage(th.pc);
    && !th.pc.Aborted?
    && th.fails <= Others(s, th)
    && (v in s.list.val.vdevs <==> (if th.kind.Attach? then stage >= 1 else stage == 0))
    && SideView(s.rx, v, if th.kind.Attach? then stage >= 2 else stage < 2, th.kind.Detach? || stage >= 3)
    && SideView(s.tx, v, if th.kind.Attach? then stage >= 4 else stage < 4, th.kind.Detach? || stage >= 5)
    && PcInv(s, v)
  }

  ghost predicate Inv(s: State) {
    && Good(s)
    && forall v :: 0 <= v < MAX_VHOSTS ==> VidInv(s, v)
  }

  // ----- Interference: what one callback's step may do to another vid

  ghost predicate SideFrame(x: Side, x': Side, v: nat, delta: int)
    requires v < |x.core| && v < |x'.core|
  {
    && |x'.plans| == |x.plans|
    && (forall c :: 0 <= c < |x.plans| ==> Seen(x.plans[c], x'.plans[c]) && x'.plans[c].ver - x.plans[c].ver <= delta)
    && (v in x'.loc <==> v in x.loc) && (v in x.loc ==> x'.loc[v] == x.loc[v])
    && x'.core[v] == x.core[v]
  }

  ghost predicate Frame(s: State, s': State, v: nat)
    requires Shaped(s) && Shaped(s') && v < MAX_VHOSTS
  {
    && s'.threads[v] == s.threads[v]
    && s.total <= s'.total
    && Seen(s.list, s'.list) && s'.list.ver - s.list.ver <= s'.total - s.total
    && (v in s'.list.val.vdevs <==> v in s.list.val.vdevs)
    && SideFrame(s.rx, s'.rx, v, s'.total - s.total)
    && SideFrame(s.tx, s'.tx, v, s'.total - s.total)
  }

  lemma FrameKeepsVid(s: State, s': State, v: nat)
    requires Shaped(s) && Shaped(s') && v < MAX_VHOSTS
    requires VidInv(s, v) && Frame(s, s', v)
    ensures VidInv(s', v)
  {
    match s.threads[v].pc
    case PlanCas(n, c, seen) =>
      var x, x' := SideOf(s, n), SideOf(s', n);
      assert Seen(x.plans[c], x'.plans[c]);
    case _ =>
  }

  /** What has to be shown of a step of `v`'s callback. */
  ghost predicate StepOk(s: State, s': State, v: nat)
    requires Shaped(s) && v < MAX_VHOSTS
  {
    && Good(s')
    && VidInv(s', v)
    && forall u :: 0 <= u < MAX_VHOSTS && u != v ==> Frame(s, s', u)
  }

  lemma StepOkKeepsInv(s: State, s': State, v: nat)
    requires Inv(s) && v < MAX_VHOSTS && StepOk(s, s', v)
    ensures Inv(s')
  {
    forall u | 0 <= u < MAX_VHOSTS
      ensures VidInv(s', u)
    {
      if u != v {
        FrameKeepsVid(s, s', u);
      }
    }
  }

  /** A step that touches only its own thread disturbs nobody. */
  lemma LocalOk(s: State, v: nat, th: Thread)
    requires Good(s) && v < MAX_VHOSTS
    requires VidInv(s.(threads := s.threads[v := th]), v)
    ensures StepOk(s, s.(threads := s.threads[v := th]), v)
  {
  }

  lemma ListHasRoom(l: List, v: nat)
    requires ListOk(l) && v < MAX_VHOSTS && v !in l.vdevs
    ensures l.num < MAX_VHOSTS
  {
    RoomLeft(l.vdevs, MAX_VHOSTS, v);
  }

  lemma PlanHasRoom(x: Side, v: nat, c: nat)
    requires SideOk(x) && c < |x.plans| && v < MAX_VHOSTS
    ensures |x.plans[c].val| <= MAX_VHOSTS
    ensures v !in x.loc ==> |x.plans[c].val| < MAX_VHOSTS
  {
    forall w | w in x.plans[c].val
      ensures w < MAX_VHOSTS
    {
      assert w in x.loc;
    }
    NoDupBound(x.plans[c].val, MAX_VHOSTS, v);
  }

  lemma CheckOk(s: State, v: nat)
    requires Good(s) && v < MAX_VHOSTS && VidInv(s, v) && s.threads[v].pc.ListCheck?
    ensures StepOk(s, RunStep(s, v), v)
  {
    if s.threads[v].kind.Attach? { ListHasRoom(s.list.val, v); }
    LocalOk(s, v, RunStep(s, v).threads[v]);
  }

  /** A step that moves its own thread and sets its own device's state. */
  lemma ReadyOk(s: State, v: nat, th: Thread, r: Readiness)
    requires Good(s) && v < MAX_VHOSTS
    requires VidInv(s.(threads := s.threads[v := th]), v)
    ensures StepOk(s, s.(threads := s.threads[v := th], ready := s.ready[v := r]), v)
  {
    var s' := s.(threads := s.threads[v := th], ready := s.ready[v := r]);
    var s1 := s.(threads := s.threads[v := th]);
    LocalOk(s, v, th);
    FrameKeepsVid(s1, s', v);
  }

  lemma ListLoadOk(s: State, v: nat)
    requires Good(s) && v < MAX_VHOSTS && VidInv(s, v) && s.threads[v].pc.ListLoad?
    ensures StepOk(s, RunStep(s, v), v)
  {
    LocalOk(s, v, RunStep(s, v).threads[v]);
  }

  lemma BuildListOk(l: List, op: Op)
    requires ListOk(l) && op.vid < MAX_VHOSTS && (op.vid in l.vdevs <==> op.kind.Detach?)
    ensures ListOk(BuildList(op, l))
  {
  }

  lemma ListReplayStep(log: seq<Op>, op: Op)
    ensures ReplayList(log + [op]) == BuildList(op, ReplayList(log))
  {
    assert (log + [op])[..|log|] == log;
  }

  /** A successful swap of the list. */
  lemma ListWinOk(s: State, v: nat)
    requires Good(s) && v < MAX_VHOSTS && VidInv(s, v) && s.threads[v].pc.ListCas?
    requires s.threads[v].pc.listSeen.ver == s.list.ver
    ensures StepOk(s, RunStep(s, v), v)
  {
    var op := Op(s.threads[v].kind, v);
    if op.kind.Attach? { ListHasRoom(s.list.val, v); }
    BuildListOk(s.list.val, op);
    ListReplayStep(s.log, op);
    ListWinVid(s, v);
    forall u | 0 <= u < MAX_VHOSTS && u != v
      ensures Frame(s, RunStep(s, v), u)
    {
      ListWinFrame(s, v, u);
    }
  }

  lemma ListWinVid(s: State, v: nat)
    requires Shaped(s) && v < MAX_VHOSTS && VidInv(s, v) && s.threads[v].pc.ListCas?
    requires s.threads[v].pc.listSeen.ver == s.list.ver
    requires s.threads[v].kind.Attach? ==> s.list.val.num < MAX_VHOSTS
    requires v in s.rx.loc ==> s.rx.loc[v] < |s.rx.plans|
    ensures VidInv(RunStep(s, v), v)
  {
  }

  lemma ListWinFrame(s: State, v: nat, u: nat)
    requires Shaped(s) && v < MAX_VHOSTS && VidInv(s, v) && s.threads[v].pc.ListCas?
    requires s.threads[v].pc.listSeen.ver == s.list.ver
    requires s.threads[v].kind.Attach? ==> s.list.val.num < MAX_VHOSTS
    requires u < MAX_VHOSTS && u != v
    ensures Frame(s, RunStep(s, v), u)
  {
  }

  lemma ListCasOk(s: State, v: nat)
    requires Good(s) && v < MAX_VHOSTS && VidInv(s, v) && s.threads[v].pc.ListCas?
    ensures StepOk(s, RunStep(s, v), v)
  {
    var seen := s.threads[v].pc.listSeen;
    if seen.ver == s.list.ver {
      ListWinOk(s, v);
    } else {
      if s.threads[v].kind.Attach? { ListHasRoom(seen.val, v); }
      LocalOk(s, v, RunStep(s, v).threads[v]);
    }
  }

  /** The scan keeps the first least of the plans it has loaded. */
  lemma LeastStep(loaded: seq<seq<nat>>, best: int, plan: seq<nat>)
    requires |plan| < MAX_VHOSTS
    requires loaded == [] ==> best == -1
    requires loaded != [] ==> 0 <= best && Plans.IsFirstLeast(loaded, best)
    ensures var least := if loaded == [] then MAX_VHOSTS else |loaded[best]|;
      Plans.IsFirstLeast(loaded + [plan], if |plan| < least then |loaded| else best)
  {
  }

  lemma ScanAttachOk(s: State, v: nat)
    requires Good(s) && v < MAX_VHOSTS && VidInv(s, v)
    requires s.threads[v].pc.Scan? && s.threads[v].kind.Attach?
    ensures VidInv(ScanStep(s, v), v)
  {
    var Scan(n, next, best, least, loaded) := s.threads[v].pc;
    var x := SideOf(s, n);
    if next < |x.plans| {
      assert v !in x.loc;
      PlanHasRoom(x, v, next);
      LeastStep(loaded, best, x.plans[next].val);
    }
  }

  lemma ScanDetachOk(s: State, v: nat)
    requires Good(s) && v < MAX_VHOSTS && VidInv(s, v)
    requires s.threads[v].pc.Scan? && s.threads[v].kind.Detach?
    ensures VidInv(ScanStep(s, v), v)
  {
    var Scan(n, next, best, least, loaded) := s.threads[v].pc;
    var x := SideOf(s, n);
    assert next < |x.plans|;
    assert v in x.plans[next].val <==> x.loc[v] == next;
  }

  lemma ScanIsLocal(s: State, v: nat)
    requires Shaped(s) && v < MAX_VHOSTS && s.threads[v].pc.Scan? && PcShaped(s, s.threads[v].pc)
    ensures var s' := ScanStep(s, v);
      |s'.threads| == MAX_VHOSTS && s' == s.(threads := s.threads[v := s'.threads[v]])
  {
  }

  lemma ScanOk(s: State, v: nat)
    requires Good(s) && v < MAX_VHOSTS && VidInv(s, v) && s.threads[v].pc.Scan?
    ensures StepOk(s, RunStep(s, v), v)
  {
    ScanIsLocal(s, v);
    if s.threads[v].kind.Attach? {
      ScanAttachOk(s, v);
    } else {
      ScanDetachOk(s, v);
    }
    LocalOk(s, v, ScanStep(s, v).threads[v]);
  }

  lemma PlanLoadOk(s: State, v: nat)
    requires Good(s) && v < MAX_VHOSTS && VidInv(s, v) && s.threads[v].pc.PlanLoad?
    ensures StepOk(s, RunStep(s, v), v)
  {
    var PlanLoad(n, c) := s.threads[v].pc;
    var x := SideOf(s, n);
    PlanHasRoom(x, v, c);
    assert v in x.plans[c].val <==> v in x.loc && x.loc[v] == c;
    LocalOk(s, v, RunStep(s, v).threads[v]);
  }

  ghost predicate Swappable(x: Side, op: Op, c: nat) {
    && SideShaped(x) && c < |x.plans| && op.vid < MAX_VHOSTS
    && if op.kind.Attach? then op.vid !in x.loc else op.vid in x.loc && x.loc[op.vid] == c
  }

  lemma PlanReplayStep(log: seq<Op>, op: Op)
    ensures ReplayPlan(log + [op]) == BuildPlan(op, ReplayPlan(log))
  {
    assert (log + [op])[..|log|] == log;
  }

  lemma BuildPlanOk(p: seq<nat>, op: Op)
    requires NoDup(p) && (op.vid in p <==> op.kind.Detach?)
    ensures NoDup(BuildPlan(op, p))
    ensures forall w :: w in BuildPlan(op, p) <==> (if w == op.vid then op.kind.Attach? else w in p)
  {
    if op.kind.Detach? {
      Plans.WithoutMembers(p, op.vid);
    }
  }

  lemma SwapMembers(x: Side, op: Op, c: nat, d: nat, w: nat)
    requires SideOk(x) && Swappable(x, op, c) && d < |x.plans|
    ensures var x' := Swap(x, op, c, x.plans[c].val);
      w in x'.plans[d].val <==> w in x'.loc && x'.loc[w] == d
  {
    assert w in x.plans[d].val <==> w in x.loc && x.loc[w] == d;
    assert op.vid in x.plans[c].val <==> op.vid in x.loc && x.loc[op.vid] == c;
    BuildPlanOk(x.plans[c].val, op);
  }

  lemma SwapKeepsSide(x: Side, op: Op, c: nat)
    requires SideOk(x) && Swappable(x, op, c)
    ensures SideOk(Swap(x, op, c, x.plans[c].val))
  {
    var x' := Swap(x, op, c, x.plans[c].val);
    assert op.vid in x.plans[c].val <==> op.vid in x.loc && x.loc[op.vid] == c;
    BuildPlanOk(x.plans[c].val, op);
    PlanReplayStep(x.logs[c], op);
    forall d, w: nat | 0 <= d < |x'.plans|
      ensures w in x'.plans[d].val <==> w in x'.loc && x'.loc[w] == d
    {
      SwapMembers(x, op, c, d, w);
    }
  }

  lemma SwapFrame(x: Side, op: Op, c: nat, u: nat)
    requires Swappable(x, op, c) && u < MAX_VHOSTS && u != op.vid
    ensures SideFrame(x, Swap(x, op, c, x.plans[c].val), u, 1)
  {
  }

  /** The callback `v` is about to swap plan `c` and its version is current. */
  ghost predicate Winning(s: State, v: nat, n: SideName, c: nat, seen: Reg<seq<nat>>) {
    && Shaped(s) && v < MAX_VHOSTS && VidInv(s, v)
    && s.threads[v].pc == PlanCas(n, c, seen)
    && c < |SideOf(s, n).plans| && seen == SideOf(s, n).plans[c]
  }

  lemma SwapVid(s: State, v: nat, n: SideName, c: nat, seen: Reg<seq<nat>>)
    requires Winning(s, v, n, c, seen)
    ensures Swappable(SideOf(s, n), Op(s.threads[v].kind, v), c)
    ensures VidInv(PlanCasStep(s, v, n, c, seen), v)
  {
    if n.Rx? { assert Stage(s.threads[v].pc) == 1; } else { assert Stage(s.threads[v].pc) == 3; }
  }

  lemma SwapOthers(s: State, v: nat, n: SideName, c: nat, seen: Reg<seq<nat>>, u: nat)
    requires Winning(s, v, n, c, seen) && u < MAX_VHOSTS && u != v
    ensures Frame(s, PlanCasStep(s, v, n, c, seen), u)
  {
    SwapVid(s, v, n, c, seen);
    SwapFrame(SideOf(s, n), Op(s.threads[v].kind, v), c, u);
  }

  lemma PlanWinOk(s: State, v: nat, n: SideName, c: nat, seen: Reg<seq<nat>>)
    requires Good(s) && Winning(s, v, n, c, seen)
    ensures StepOk(s, PlanCasStep(s, v, n, c, seen), v)
  {
    SwapVid(s, v, n, c, seen);
    SwapKeepsSide(SideOf(s, n), Op(s.threads[v].kind, v), c);
    forall u | 0 <= u < MAX_VHOSTS && u != v
      ensures Frame(s, PlanCasStep(s, v, n, c, seen), u)
    {
      SwapOthers(s, v, n, c, seen, u);
    }
  }

  lemma PlanCasOk(s: State, v: nat)
    requires Good(s) && v < MAX_VHOSTS && VidInv(s, v) && s.threads[v].pc.PlanCas?
    ensures StepOk(s, RunStep(s, v), v)
  {
    var PlanCas(n, c, seen) := s.threads[v].pc;
    if seen.ver == SideOf(s, n).plans[c].ver {
      PlanWinOk(s, v, n, c, seen);
    } else {
      LocalOk(s, v, RunStep(s, v).threads[v]);
    }
  }

  lemma RecordVid(s: State, v: nat, n: SideName, c: nat)
    requires Shaped(s) && v < MAX_VHOSTS && VidInv(s, v) && s.threads[v].pc == Record(n, c)
    requires n.Rx? && v in s.tx.loc ==> s.tx.loc[v] < |s.tx.plans|
    ensures VidInv(RecordStep(s, v, n, c), v)
  {
  }

  lemma RecordFrame(s: State, v: nat, n: SideName, c: nat, u: nat)
    requires Shaped(s) && v < MAX_VHOSTS && u < MAX_VHOSTS && u != v
    ensures Frame(s, RecordStep(s, v, n, c), u)
  {
  }

  lemma RecordKeepsSide(x: Side, core: seq<nat>)
    requires SideOk(x) && |core| == MAX_VHOSTS
    requires forall v :: 0 <= v < MAX_VHOSTS ==> core[v] < |x.plans|
    ensures SideOk(x.(core := core))
  {
    var x' := x.(core := core);
    forall c, w: nat | 0 <= c < |x'.plans|
      ensures w in x'.plans[c].val <==> w in x'.loc && x'.loc[w] == c
    {
      assert w in x.plans[c].val <==> w in x.loc && x.loc[w] == c;
    }
  }

  lemma RecordGood(s: State, v: nat, n: SideName, c: nat)
    requires Good(s) && v < MAX_VHOSTS && c < |SideOf(s, n).plans|
    ensures Good(RecordStep(s, v, n, c))
  {
    var x := SideOf(s, n);
    RecordKeepsSide(x, x.core[v := if s.threads[v].kind.Attach? then c else 0]);
  }

  lemma RecordOk(s: State, v: nat)
    requires Good(s) && v < MAX_VHOSTS && VidInv(s, v) && s.threads[v].pc.Record?
    ensures StepOk(s, RunStep(s, v), v)
  {
    var Record(n, c) := s.threads[v].pc;
    RecordGood(s, v, n, c);
    RecordVid(s, v, n, c);
    forall u | 0 <= u < MAX_VHOSTS && u != v
      ensures Frame(s, RecordStep(s, v, n, c), u)
    {
      RecordFrame(s, v, n, c, u);
    }
  }

  lemma BeginOk(s: State, v: nat, k: Kind)
    requires Good(s) && v < MAX_VHOSTS && VidInv(s, v) && Enabled(s, Begin(v, k))
    ensures StepOk(s, Step(s, Begin(v, k)), v)
  {
    var th := Thread(k, ListCheck, 0, 0, s.total, 0);
    if k.Attach? {
      ReadyOk(s, v, th, MacLearning);
    } else {
      LocalOk(s, v, th);
    }
  }

  lemma LearnOk(s: State, v: nat)
    requires Good(s) && v < MAX_VHOSTS && VidInv(s, v)
    ensures StepOk(s, s.(ready := s.ready[v := DeviceRx]), v)
  {
    assert s.threads == s.threads[v := s.threads[v]];
    ReadyOk(s, v, s.threads[v], DeviceRx);
  }

  lemma UnlinkOk(s: State, v: nat)
    requires Good(s) && v < MAX_VHOSTS && VidInv(s, v) && s.threads[v].pc.Unlink?
    ensures StepOk(s, RunStep(s, v), v)
  {
    ReadyOk(s, v, s.threads[v].(pc := ListLoad), SafeRemove);
  }

  lemma ReadyCheckOk(s: State, v: nat)
    requires Good(s) && v < MAX_VHOSTS && VidInv(s, v) && s.threads[v].pc.ReadyCheck?
    ensures StepOk(s, RunStep(s, v), v)
  {
    LocalOk(s, v, RunStep(s, v).threads[v]);
  }

  lemma SpuriousOk(s: State, v: nat)
    requires Good(s) && v < MAX_VHOSTS && VidInv(s, v) && Enabled(s, Spurious(v))
    ensures StepOk(s, Step(s, Spurious(v)), v)
  {
    LocalOk(s, v, Step(s, Spurious(v)).threads[v]);
  }

  lemma StayOk(s: State, v: nat)
    requires Good(s) && v < MAX_VHOSTS && VidInv(s, v)
    ensures StepOk(s, s, v)
  {
    assert s.threads == s.threads[v := s.threads[v]];
    LocalOk(s, v, s.threads[v]);
  }

  lemma RunOk(s: State, v: nat)
    requires Good(s) && v < MAX_VHOSTS && VidInv(s, v) && Enabled(s, Run(v))
    ensures StepOk(s, RunStep(s, v), v)
  {
    match s.threads[v].pc
    case ListCheck => CheckOk(s, v);
    case Unlink => UnlinkOk(s, v);
    case ListLoad => ListLoadOk(s, v);
    case ReadyCheck(_) => ReadyCheckOk(s, v);
    case ListCas(_) => ListCasOk(s, v);
    case Scan(_, _, _, _, _) => ScanOk(s, v);
    case PlanLoad(_, _) => PlanLoadOk(s, v);
    case PlanCas(_, _, _) => PlanCasOk(s, v);
    case Record(_, _) => RecordOk(s, v);
    case Idle => StayOk(s, v);
    case GaveUp => StayOk(s, v);
  }

  lemma StepKeepsInv(s: State, a: Action)
    requires Inv(s) && Enabled(s, a)
    ensures Inv(Step(s, a))
  {
    var v := a.vid;
    assert VidInv(s, v);
    match a {
      case Begin(_, k) => BeginOk(s, v, k);
      case Spurious(_) => SpuriousOk(s, v);
      case Run(_) => RunOk(s, v);
      case Learn(_) => LearnOk(s, v);
    }
    StepOkKeepsInv(s, Step(s, a), v);
  }

  // ----- Every interleaving

  function EmptySide(cores: nat): Side {
    Side(seq(cores, i => Reg(0, [])), seq(cores, i => []), seq(MAX_VHOSTS, i => 0), map[])
  }

  function Initial(rxCores: nat, txCores: nat): State {
    State(Reg(0, List(0, {})), [], seq(MAX_VHOSTS, i => MacLearning), EmptySide(rxCores), EmptySide(txCores),
          seq(MAX_VHOSTS, i => Thread(Detach, Idle, 0, 0, 0, 0)), 0)
  }

  /** `trace` lists the states of a run that takes the given actions. */
  ghost predicate IsRun(trace: seq<State>, actions: seq<Action>) {
    && |trace| == |actions| + 1
    && forall i :: 0 <= i < |actions| ==>
         Shaped(trace[i]) && Enabled(trace[i], actions[i]) && trace[i + 1] == Step(trace[i], actions[i])
  }

  /** A callback that found a newer version retries only because another one
      succeeded; none finds a full list, a full plan or its vid missing; list and
      plans are the replay of all successful swaps, at every point of every
      interleaving. */
  lemma {:induction false} EveryInterleaving(rxCores: nat, txCores: nat, trace: seq<State>, actions: seq<Action>)
    requires rxCores > 0 && txCores > 0
    requires IsRun(trace, actions) && trace[0] == Initial(rxCores, txCores)
    ensures forall i :: 0 <= i < |trace| ==> Inv(trace[i])
  {
    var k := 0;
    InitialInv(rxCores, txCores);
    while k < |actions|
      invariant 0 <= k <= |actions|
      invariant forall i :: 0 <= i <= k ==> Inv(trace[i])
    {
      StepKeepsInv(trace[k], actions[k]);
      k := k + 1;
    }
  }

  lemma InitialInv(rxCores: nat, txCores: nat)
    requires rxCores > 0 && txCores > 0
    ensures Inv(Initial(rxCores, txCores))
  {
    assert ReplayList([]) == List(0, {});
    assert ReplayPlan([]) == [];
  }

  /** The side as the whole-operation model sees it. */
  function TableOf(x: Side): Plans.Table {
    Plans.Table(seq(|x.plans|, i requires 0 <= i < |x.plans| => x.plans[i].val), x.core)
  }

  /** Whenever no callback is running, both sides satisfy the whole-operation
      invariant for the listed devices. */
  lemma Quiescent(s: State)
    requires Inv(s)
    requires forall v :: 0 <= v < MAX_VHOSTS ==> Done(s.threads[v].pc)
    ensures s.list.val.num == |s.list.val.vdevs|
    ensures Plans.Inv(TableOf(s.rx), s.list.val.vdevs)
    ensures Plans.Inv(TableOf(s.tx), s.list.val.vdevs)
  {
    QuiescentSide(s, s.rx);
    QuiescentSide(s, s.tx);
  }

  lemma QuiescentVid(s: State, x: Side, v: nat)
    requires Inv(s) && (x == s.rx || x == s.tx) && v < MAX_VHOSTS && Done(s.threads[v].pc)
    ensures v in s.list.val.vdevs <==> v in x.loc
    ensures v in s.list.val.vdevs ==> x.core[v] == x.loc[v]
  {
    assert VidInv(s, v);
  }

  lemma QuiescentSide(s: State, x: Side)
    requires Inv(s) && (x == s.rx || x == s.tx)
    requires forall v :: 0 <= v < MAX_VHOSTS ==> Done(s.threads[v].pc)
    ensures Plans.Inv(TableOf(x), s.list.val.vdevs)
  {
    var live := s.list.val.vdevs;
    forall v: nat | v < MAX_VHOSTS
      ensures v in live <==> v in x.loc
      ensures v in live ==> x.core[v] == x.loc[v]
    {
      QuiescentVid(s, x, v);
    }
    TableInv(x, live);
  }

  lemma TableInv(x: Side, live: set<nat>)
    requires SideOk(x)
    requires forall v :: v in live ==> v < MAX_VHOSTS
    requires forall v: nat :: v < MAX_VHOSTS ==> (v in live <==> v in x.loc)
    requires forall v: nat :: v < MAX_VHOSTS && v in live ==> x.core[v] == x.loc[v]
    ensures Plans.Inv(TableOf(x), live)
  {
    var t := TableOf(x);
    assert Plans.Shaped(t) by {
      forall c, v | 0 <= c < |t.plans| && v in t.plans[c]
        ensures v < MAX_VHOSTS
      {
        assert v in x.plans[c].val;
        assert v in x.loc;
      }
    }
    forall c, v: nat | 0 <= c < |t.plans|
      ensures v in t.plans[c] <==> v in live && t.core[v] == c
    {
      assert v in x.plans[c].val <==> v in x.loc && x.loc[v] == c;
    }
  }

  /** A successful swap applies its operation to the version it replaces, even
      if that version is not the first one the callback loaded: an attach appends
      its vid, a detach takes out its own vid and nothing else. */
  lemma SwapIsExact(s: State, v: nat, n: SideName, c: nat, seen: Reg<seq<nat>>)
    requires Inv(s) && v < MAX_VHOSTS
    requires s.threads[v].pc == PlanCas(n, c, seen)
    requires c < |SideOf(s, n).plans| && seen.ver == SideOf(s, n).plans[c].ver
    ensures var now := SideOf(s, n).plans[c].val;
      var next := SideOf(RunStep(s, v), n).plans[c].val;
      && (s.threads[v].kind.Attach? ==> v !in now && next == now + [v])
      && (s.threads[v].kind.Detach? ==> v in now && next == Plans.Without(now, v))
      && (s.threads[v].kind.Detach? ==> v !in next && forall w :: w != v ==> (w in next <==> w in now))
  {
    assert VidInv(s, v);
    var now := SideOf(s, n).plans[c].val;
    assert seen.val == now;
    Plans.WithoutMembers(now, v);
  }

  /** Lost swaps of any callback are paid for by others' successes since it began. */
  lemma FailuresBounded(s: State, v: nat)
    requires Inv(s) && v < MAX_VHOSTS
    ensures s.threads[v].fails + s.threads[v].wins + s.threads[v].base <= s.total
    ensures !s.threads[v].pc.Aborted?
  {
    assert VidInv(s, v);
  }

  // ----- When a detach gives up

  /** Between marking its device safe to remove and taking it off the list. */
  predicate Unlisting(th: Thread) {
    th.kind.Detach? && (th.pc.ListLoad? || th.pc.ReadyCheck? || th.pc.ListCas?)
  }

  /** A step is shaped and leaves other vids' callbacks and devices alone. */
  lemma StepElsewhere(s: State, a: Action, v: nat)
    requires Shaped(s) && Enabled(s, a) && v < MAX_VHOSTS
    ensures Shaped(Step(s, a))
    ensures a.vid != v ==> Step(s, a).threads[v] == s.threads[v] && Step(s, a).ready[v] == s.ready[v]
  {
    if a.Run? {
      RunElsewhere(s, a.vid, v);
    }
  }

  lemma RunElsewhere(s: State, w: nat, v: nat)
    requires Shaped(s) && w < MAX_VHOSTS && PcShaped(s, s.threads[w].pc) && v < MAX_VHOSTS
    ensures Shaped(RunStep(s, w))
    ensures w != v ==> RunStep(s, w).threads[v] == s.threads[v] && RunStep(s, w).ready[v] == s.ready[v]
  {
    match s.threads[w].pc
    case Scan(_, _, _, _, _) => ScanIsLocal(s, w);
    case PlanCas(n, c, seen) =>
    case _ =>
  }

  /** A callback gets there only by its own unlink step, and leaves the device's
      state to the learning path. */
  lemma UnlistingStep(s: State, a: Action, v: nat)
    requires Shaped(s) && Enabled(s, a) && v < MAX_VHOSTS
    ensures var s' := Step(s, a);
      && Shaped(s')
      && (Unlisting(s'.threads[v]) && !Unlisting(s.threads[v]) ==>
            a == Run(v) && s.threads[v].pc.Unlink? && s'.ready[v] == SafeRemove)
      && (Unlisting(s'.threads[v]) && Unlisting(s.threads[v]) ==>
            s'.ready[v] == if a == Learn(v) then DeviceRx else s.ready[v])
  {
    StepElsewhere(s, a, v);
  }

  lemma GaveUpStep(s: State, a: Action, v: nat)
    requires Shaped(s) && Enabled(s, a) && v < MAX_VHOSTS
    ensures Shaped(Step(s, a))
    ensures Step(s, a).threads[v].pc.GaveUp? && !s.threads[v].pc.GaveUp? ==>
      a == Run(v) && s.threads[v].pc.ReadyCheck? && s.ready[v] != SafeRemove
  {
    StepElsewhere(s, a, v);
  }

  /** `v`'s detach marked its device at step `u` and has been trying to take it
      off the list ever since, up to state `i`. */
  ghost predicate UnlistingSince(trace: seq<State>, actions: seq<Action>, v: nat, u: nat, i: nat)
    requires IsRun(trace, actions) && v < MAX_VHOSTS && u < i < |trace|
  {
    && actions[u] == Run(v) && trace[u].threads[v].pc.Unlink?
    && forall k :: u < k <= i ==> |trace[k].threads| == MAX_VHOSTS && Unlisting(trace[k].threads[v])
  }

  ghost predicate LearnedBetween(actions: seq<Action>, v: nat, u: nat, i: nat)
    requires i <= |actions|
  {
    exists j :: u < j < i && actions[j] == Learn(v)
  }

  lemma {:induction false} UnlistingBegan(trace: seq<State>, actions: seq<Action>, v: nat, i: nat) returns (u: nat)
    requires IsRun(trace, actions) && v < MAX_VHOSTS && i < |trace|
    requires |trace[0].threads| == MAX_VHOSTS && !Unlisting(trace[0].threads[v])
    requires |trace[i].threads| == MAX_VHOSTS && Unlisting(trace[i].threads[v])
    ensures u < i && UnlistingSince(trace, actions, v, u, i)
  {
    UnlistingStep(trace[i - 1], actions[i - 1], v);
    if Unlisting(trace[i - 1].threads[v]) {
      u := UnlistingBegan(trace, actions, v, i - 1);
    } else {
      u := i - 1;
    }
  }

  /** In that phase the device's state records whether it was learned again. */
  lemma {:induction false} ReadyWhileUnlisting(trace: seq<State>, actions: seq<Action>, v: nat, u: nat, i: nat)
    requires IsRun(trace, actions) && v < MAX_VHOSTS && u < i < |trace|
    requires UnlistingSince(trace, actions, v, u, i)
    ensures |trace[i].ready| == MAX_VHOSTS
    ensures trace[i].ready[v] == if LearnedBetween(actions, v, u, i) then DeviceRx else SafeRemove
  {
    UnlistingStep(trace[i - 1], actions[i - 1], v);
    if u < i - 1 {
      ReadyWhileUnlisting(trace, actions, v, u, i - 1);
      assert LearnedBetween(actions, v, u, i) <==> LearnedBetween(actions, v, u, i - 1) || actions[i - 1] == Learn(v);
    }
  }

  /** A detach that checks its device at step `i` returns early exactly when the
      slow path learned the device again since the detach marked it. */
  lemma GivesUpExactly(rxCores: nat, txCores: nat, trace: seq<State>, actions: seq<Action>, v: nat, u: nat, i: nat)
    requires rxCores > 0 && txCores > 0 && v < MAX_VHOSTS && u < i < |actions|
    requires IsRun(trace, actions) && trace[0] == Initial(rxCores, txCores)
    requires UnlistingSince(trace, actions, v, u, i)
    requires actions[i] == Run(v) && trace[i].threads[v].pc.ReadyCheck?
    ensures |trace[i + 1].threads| == MAX_VHOSTS
    ensures trace[i + 1].threads[v].pc.GaveUp? <==> LearnedBetween(actions, v, u, i)
  {
    EveryInterleaving(rxCores, txCores, trace, actions);
    ReadyWhileUnlisting(trace, actions, v, u, i);
    assert VidInv(trace[i], v);
  }

  /** In every run, a detach that gave up was overtaken by learning: its device was
      learned again after the detach marked it and before it checked. So without
      learning of a device that is being detached, no callback gives up at all. */
  lemma {:induction false} OnlyLearningStopsDetach(rxCores: nat, txCores: nat, trace: seq<State>,
                                                   actions: seq<Action>, v: nat, i: nat)
    requires rxCores > 0 && txCores > 0 && v < MAX_VHOSTS && i < |trace|
    requires IsRun(trace, actions) && trace[0] == Initial(rxCores, txCores)
    ensures |trace[i].threads| == MAX_VHOSTS && !trace[i].threads[v].pc.Aborted?
    ensures trace[i].threads[v].pc.GaveUp? ==>
      exists u, k :: 0 <= u < k < i && UnlistingSince(trace, actions, v, u, k) && LearnedBetween(actions, v, u, k)
  {
    EveryInterleaving(rxCores, txCores, trace, actions);
    assert VidInv(trace[i], v);
    if trace[i].threads[v].pc.GaveUp? {
      if trace[i - 1].threads[v].pc.GaveUp? {
        OnlyLearningStopsDetach(rxCores, txCores, trace, actions, v, i - 1);
      } else {
        GaveUpStep(trace[i - 1], actions[i - 1], v);
        assert VidInv(trace[i - 1], v);
        var u := UnlistingBegan(trace, actions, v, i - 1);
        ReadyWhileUnlisting(trace, actions, v, u, i - 1);
        assert UnlistingSince(trace, actions, v, u, i - 1) && LearnedBetween(actions, v, u, i - 1);
      }
    }
  }

  /** It does happen, from every state in which a listed vid has no callback. */
  lemma LearningStopsDetach(s: State, v: nat)
    requires Inv(s) && v in s.list.val.vdevs && v < MAX_VHOSTS && Done(s.threads[v].pc)
    ensures exists trace: seq<State> ::
      && IsRun(trace, [Begin(v, Detach), Run(v), Run(v), Learn(v), Run(v), Run(v)])
      && trace[0] == s && |trace[6].threads| == MAX_VHOSTS && trace[6].threads[v].pc.GaveUp?
      && trace[6].list == s.list && trace[6].rx == s.rx && trace[6].tx == s.tx
  {
    var s1 := Step(s, Begin(v, Detach));
    assert s1.threads[v].pc.ListCheck?;
    var s2 := Step(s1, Run(v));
    assert s2.threads[v].pc.Unlink?;
    var s3 := Step(s2, Run(v));
    assert s3.threads[v].pc.ListLoad?;
    var s4 := Step(s3, Learn(v));
    var s5 := Step(s4, Run(v));
    assert s5.threads[v].pc.ReadyCheck?;
    var s6 := Step(s5, Run(v));
    var trace := [s, s1, s2, s3, s4, s5, s6];
    assert IsRun(trace, [Begin(v, Detach), Run(v), Run(v), Learn(v), Run(v), Run(v)]);
  }

  /** Why a vid whose detach gave up must not be attached again: an attach keeps
      the counter and the plans right exactly when its vid is not there yet. */
  lemma AttachNeedsFreeVid(l: List, p: seq<nat>, v: nat)
    requires ListOk(l) && v < MAX_VHOSTS && NoDup(p)
    ensures ListOk(BuildList(Op(Attach, v), l)) <==> v !in l.vdevs
    ensures NoDup(BuildPlan(Op(Attach, v), p)) <==> v !in p
  {
    if v in l.vdevs {
      assert l.vdevs + {v} == l.vdevs;
    }
    var q := p + [v];
    if v in p {
      var i :| 0 <= i < |p| && p[i] == v;
      assert q[i] == q[|p|];
    }
  }

  // ----- Which core an attach chooses

  ghost predicate Scanning(s: State, v: nat, n: SideName) {
    v < |s.threads| && s.threads[v].pc.Scan? && s.threads[v].pc.side == n
  }

  /** The action makes `v`'s scan of side `n` read this plan of core `m`. */
  ghost predicate ReadsPlan(s: State, a: Action, v: nat, n: SideName, m: nat, plan: seq<nat>) {
    && a == Run(v) && Scanning(s, v, n) && s.threads[v].pc.next == m
    && m < |SideOf(s, n).plans| && SideOf(s, n).plans[m].val == plan
  }

  ghost predicate ScansBetween(trace: seq<State>, v: nat, n: SideName, j: nat, i: nat)
    requires i < |trace|
  {
    forall k :: j <= k <= i ==> Scanning(trace[k], v, n)
  }

  /** `v`'s scan of side `n` read this plan of core `m` at some step before `i`, and
      has gone on scanning since. */
  ghost predicate LoadedAt(trace: seq<State>, actions: seq<Action>, v: nat, n: SideName, m: nat, plan: seq<nat>, i: nat)
    requires i < |trace| == |actions| + 1
  {
    exists j :: 0 <= j < i && ReadsPlan(trace[j], actions[j], v, n, m, plan) && ScansBetween(trace, v, n, j, i)
  }

  ghost predicate AllLoaded(trace: seq<State>, actions: seq<Action>, v: nat, n: SideName, loaded: seq<seq<nat>>, i: nat)
    requires i < |trace| == |actions| + 1
  {
    forall m :: 0 <= m < |loaded| ==> LoadedAt(trace, actions, v, n, m, loaded[m], i)
  }

  /** A scan begins with nothing loaded and then adds what each step reads. */
  ghost predicate HistoryStep(s: State, a: Action, s': State, v: nat) {
    && v < |s.threads| && v < |s'.threads|
    && var pc, pc' := s.threads[v].pc, s'.threads[v].pc;
       pc'.Scan? && pc'.loaded != [] ==>
         && Scanning(s, v, pc'.side)
         && (pc' == pc || exists plan ::
               ReadsPlan(s, a, v, pc.side, |pc.loaded|, plan) && pc'.loaded == pc.loaded + [plan])
  }

  lemma ScanHistory(s: State, a: Action, v: nat)
    requires Shaped(s) && Enabled(s, a) && v < MAX_VHOSTS
    ensures HistoryStep(s, a, Step(s, a), v)
  {
    StepElsewhere(s, a, v);
    if a == Run(v) && s.threads[v].pc.Scan? {
      var pc := s.threads[v].pc;
      var plans := SideOf(s, pc.side).plans;
      if pc.next < |plans| {
        assert ReadsPlan(s, a, v, pc.side, |pc.loaded|, plans[pc.next].val);
      }
    }
  }

  lemma LoadedStill(trace: seq<State>, actions: seq<Action>, v: nat, n: SideName, m: nat, plan: seq<nat>, i: nat)
    requires 0 < i < |trace| == |actions| + 1
    requires LoadedAt(trace, actions, v, n, m, plan, i - 1) && Scanning(trace[i], v, n)
    ensures LoadedAt(trace, actions, v, n, m, plan, i)
  {
    var j :| 0 <= j < i - 1 && ReadsPlan(trace[j], actions[j], v, n, m, plan) && ScansBetween(trace, v, n, j, i - 1);
    assert ScansBetween(trace, v, n, j, i);
  }

  lemma LoadedNow(trace: seq<State>, actions: seq<Action>, v: nat, n: SideName, m: nat, plan: seq<nat>, i: nat)
    requires 0 < i < |trace| == |actions| + 1
    requires ReadsPlan(trace[i - 1], actions[i - 1], v, n, m, plan) && Scanning(trace[i], v, n)
    ensures LoadedAt(trace, actions, v, n, m, plan, i)
  {
    assert ScansBetween(trace, v, n, i - 1, i);
  }

  lemma AllLoadedStep(trace: seq<State>, actions: seq<Action>, v: nat, n: SideName, loaded: seq<seq<nat>>, i: nat)
    requires 0 < i < |trace| == |actions| + 1
    requires AllLoaded(trace, actions, v, n, loaded, i - 1) && Scanning(trace[i], v, n)
    ensures AllLoaded(trace, actions, v, n, loaded, i)
    ensures forall plan :: ReadsPlan(trace[i - 1], actions[i - 1], v, n, |loaded|, plan) ==>
      AllLoaded(trace, actions, v, n, loaded + [plan], i)
  {
    forall m | 0 <= m < |loaded|
      ensures LoadedAt(trace, actions, v, n, m, loaded[m], i)
    {
      LoadedStill(trace, actions, v, n, m, loaded[m], i);
    }
    forall plan | ReadsPlan(trace[i - 1], actions[i - 1], v, n, |loaded|, plan)
      ensures AllLoaded(trace, actions, v, n, loaded + [plan], i)
    {
      LoadedNow(trace, actions, v, n, |loaded|, plan, i);
    }
  }

  /** Scans of `v` along a run only hold what they read. */
  ghost predicate History(trace: seq<State>, actions: seq<Action>, v: nat) {
    && |trace| == |actions| + 1 && v < |trace[0].threads| && trace[0].threads[v].pc.Idle?
    && forall k :: 0 <= k < |actions| ==> HistoryStep(trace[k], actions[k], trace[k + 1], v)
  }

  lemma {:induction false} ScanLoads(trace: seq<State>, actions: seq<Action>, v: nat, i: nat)
    requires History(trace, actions, v) && i < |trace|
    requires v < |trace[i].threads| && trace[i].threads[v].pc.Scan?
    ensures AllLoaded(trace, actions, v, trace[i].threads[v].pc.side, trace[i].threads[v].pc.loaded, i)
  {
    var pc := trace[i].threads[v].pc;
    if pc.loaded != [] {
      assert HistoryStep(trace[i - 1], actions[i - 1], trace[i - 1 + 1], v);
      ScanLoads(trace, actions, v, i - 1);
      AllLoadedStep(trace, actions, v, pc.side, trace[i - 1].threads[v].pc.loaded, i);
    }
  }

  /** The callback is about to put its vid on core `c` of side `n`. */
  predicate Placing(th: Thread, n: SideName, c: nat) {
    th.kind.Attach? && (th.pc.PlanLoad? || th.pc.PlanCas?) && th.pc.side == n && th.pc.at == c
  }

  /** An attach gets there only from a scan that has loaded every plan, and goes to
      the first least of them. */
  ghost predicate PlacingStep(s: State, s': State, v: nat, n: SideName, c: nat) {
    && v < |s.threads| && v < |s'.threads|
    && (Placing(s'.threads[v], n, c) && !Placing(s.threads[v], n, c) ==>
          && Scanning(s, v, n) && |s.threads[v].pc.loaded| == |SideOf(s, n).plans|
          && Plans.IsFirstLeast(s.threads[v].pc.loaded, c))
  }

  lemma PlacingStepHolds(s: State, a: Action, v: nat, n: SideName, c: nat)
    requires Shaped(s) && Enabled(s, a) && v < MAX_VHOSTS && PcInv(s, v)
    ensures PlacingStep(s, Step(s, a), v, n, c)
  {
    StepElsewhere(s, a, v);
  }

  ghost predicate PlacingSteps(trace: seq<State>, v: nat, n: SideName, c: nat) {
    forall k :: 0 <= k < |trace| - 1 ==> PlacingStep(trace[k], trace[k + 1], v, n, c)
  }

  lemma {:induction false} PlacingBegan(trace: seq<State>, v: nat, n: SideName, c: nat, i: nat) returns (u: nat)
    requires PlacingSteps(trace, v, n, c) && i < |trace|
    requires v < |trace[0].threads| && trace[0].threads[v].pc.Idle?
    requires v < |trace[i].threads| && Placing(trace[i].threads[v], n, c)
    ensures u < i && Scanning(trace[u], v, n)
    ensures |trace[u].threads[v].pc.loaded| == |SideOf(trace[u], n).plans|
    ensures Plans.IsFirstLeast(trace[u].threads[v].pc.loaded, c)
  {
    assert PlacingStep(trace[i - 1], trace[i - 1 + 1], v, n, c);
    if Placing(trace[i - 1].threads[v], n, c) {
      u := PlacingBegan(trace, v, n, c, i - 1);
    } else {
      u := i - 1;
    }
  }

  lemma StepFacts(s: State, a: Action, v: nat, n: SideName, c: nat)
    requires Inv(s) && Enabled(s, a) && v < MAX_VHOSTS
    ensures HistoryStep(s, a, Step(s, a), v) && PlacingStep(s, Step(s, a), v, n, c)
  {
    assert VidInv(s, v);
    ScanHistory(s, a, v);
    PlacingStepHolds(s, a, v, n, c);
  }

  lemma RunFacts(rxCores: nat, txCores: nat, trace: seq<State>, actions: seq<Action>, v: nat, n: SideName, c: nat)
    requires rxCores > 0 && txCores > 0 && v < MAX_VHOSTS
    requires IsRun(trace, actions) && trace[0] == Initial(rxCores, txCores)
    ensures History(trace, actions, v) && PlacingSteps(trace, v, n, c)
  {
    EveryInterleaving(rxCores, txCores, trace, actions);
    forall k | 0 <= k < |actions|
      ensures HistoryStep(trace[k], actions[k], trace[k + 1], v) && PlacingStep(trace[k], trace[k + 1], v, n, c)
    {
      StepFacts(trace[k], actions[k], v, n, c);
    }
  }

  /** Whenever an attach, after any number of failed swaps, is about to swap the plan
      of core `c`, that core was the first with the fewest VMs among the plans that
      its scan had loaded, one from each core. */
  lemma AttachGoesToLeast(rxCores: nat, txCores: nat, trace: seq<State>, actions: seq<Action>,
                          v: nat, n: SideName, c: nat, i: nat)
      returns (u: nat, loaded: seq<seq<nat>>)
    requires rxCores > 0 && txCores > 0 && v < MAX_VHOSTS && i < |trace|
    requires IsRun(trace, actions) && trace[0] == Initial(rxCores, txCores)
    requires v < |trace[i].threads| && Placing(trace[i].threads[v], n, c)
    ensures u < i && |loaded| == |SideOf(trace[u], n).plans| && Plans.IsFirstLeast(loaded, c)
    ensures AllLoaded(trace, actions, v, n, loaded, u)
  {
    RunFacts(rxCores, txCores, trace, actions, v, n, c);
    u := PlacingBegan(trace, v, n, c, i);
    loaded := trace[u].threads[v].pc.loaded;
    ScanLoads(trace, actions, v, u);
  }

  // ----- A callback that runs alone

  predicate CanRun(s: State, v: nat) {
    v < MAX_VHOSTS && Shaped(s) && PcShaped(s, s.threads[v].pc)
  }

  /** `k` steps of one callback and of nobody else; under the invariant it can
      always run. */
  ghost function RunFor(s: State, v: nat, k: nat): State
    decreases k
  {
    if k == 0 || !CanRun(s, v) then s else RunFor(RunStep(s, v), v, k - 1)
  }

  lemma {:induction false} RunForAdd(s: State, v: nat, a: nat, b: nat)
    ensures RunFor(RunFor(s, v, a), v, b) == RunFor(s, v, a + b)
    decreases a
  {
    if a > 0 && CanRun(s, v) {
      RunForAdd(RunStep(s, v), v, a - 1, b);
    }
  }

  lemma {:induction false} RunForInv(s: State, v: nat, k: nat)
    requires Inv(s) && v < MAX_VHOSTS
    ensures Inv(RunFor(s, v, k))
    decreases k
  {
    if k > 0 {
      assert VidInv(s, v);
      StepKeepsInv(s, Run(v));
      RunForInv(RunStep(s, v), v, k - 1);
    }
  }

  lemma RunOnce(s: State, v: nat)
    requires CanRun(s, v)
    ensures RunFor(s, v, 1) == RunStep(s, v)
  {
    assert RunFor(RunStep(s, v), v, 0) == RunStep(s, v);
  }

  lemma RunForThree(s: State, v: nat)
    requires CanRun(s, v) && CanRun(RunStep(s, v), v) && CanRun(RunStep(RunStep(s, v), v), v)
    ensures RunFor(s, v, 3) == RunStep(RunStep(RunStep(s, v), v), v)
  {
    var s1 := RunStep(s, v);
    var s2 := RunStep(s1, v);
    RunOnce(s2, v);
    assert RunFor(s1, v, 2) == RunFor(s2, v, 1);
  }

  /** What the list phase needs: room for an attach, the device for a detach. */
  predicate ListReady(s: State, v: nat)
    requires v < |s.threads|
  {
    if s.threads[v].kind.Attach? then s.list.val.num < MAX_VHOSTS else v in s.list.val.vdevs
  }

  ghost predicate ListRan(s: State, s': State, v: nat)
    requires v < |s.threads|
  {
    && CanRun(s', v)
    && s'.list.val == BuildList(Op(s.threads[v].kind, v), s.list.val)
    && s'.rx == s.rx && s'.tx == s.tx
    && s'.threads[v].kind == s.threads[v].kind && s'.threads[v].pc == StartScan(Rx)
  }

  lemma AttachListAlone(s: State, v: nat)
    requires CanRun(s, v) && s.threads[v].pc.ListCheck? && ListReady(s, v) && s.threads[v].kind.Attach?
    ensures ListRan(s, RunFor(s, v, 3), v)
  {
    var s1 := RunStep(s, v);
    assert CanRun(s1, v) && s1.threads[v].pc.ListLoad?;
    var s2 := RunStep(s1, v);
    assert CanRun(s2, v) && s2.threads[v].pc == ListCas(s.list);
    RunForThree(s, v);
  }

  lemma DetachListAlone(s: State, v: nat)
    requires CanRun(s, v) && s.threads[v].pc.ListCheck? && ListReady(s, v) && s.threads[v].kind.Detach?
    ensures ListRan(s, RunFor(s, v, 5), v)
  {
    var s1 := RunStep(s, v);
    assert CanRun(s1, v) && s1.threads[v].pc.Unlink?;
    var s2 := RunStep(s1, v);
    assert CanRun(s2, v) && s2.threads[v].pc.ListLoad? && s2.ready[v] == SafeRemove;
    RunOnce(s, v);
    RunOnce(s1, v);
    RunForAdd(s, v, 1, 1);
    UnlistAlone(s2, v);
    RunForAdd(s, v, 2, 3);
  }

  lemma UnlistAlone(s: State, v: nat)
    requires CanRun(s, v) && s.threads[v].pc.ListLoad? && ListReady(s, v) && s.threads[v].kind.Detach?
    requires s.ready[v] == SafeRemove
    ensures ListRan(s, RunFor(s, v, 3), v)
  {
    var s1 := RunStep(s, v);
    assert CanRun(s1, v) && s1.threads[v].pc == ReadyCheck(s.list);
    var s2 := RunStep(s1, v);
    assert CanRun(s2, v) && s2.threads[v].pc == ListCas(s.list);
    RunForThree(s, v);
  }

  /** What the scan of a side needs: room in every plan for an attach, the vid in one
      of them for a detach. */
  ghost predicate SideReady(x: Side, op: Op) {
    if op.kind.Attach? then forall c :: 0 <= c < |x.plans| ==> |x.plans[c].val| < MAX_VHOSTS
    else exists c :: 0 <= c < |x.plans| && op.vid in x.plans[c].val
  }

  /** The core the callback should go to: the first least loaded, or the one that
      holds the vid. */
  ghost predicate Chosen(s: State, v: nat, n: SideName, c: nat)
    requires v < |s.threads|
  {
    var plans := TableOf(SideOf(s, n)).plans;
    if s.threads[v].kind.Attach? then Plans.IsFirstLeast(plans, c)
    else c < |plans| && v in plans[c] && forall d :: 0 <= d < c ==> v !in plans[d]
  }

  /** A scan on its way: what it has loaded is the side as it is, `best` is the first
      least of that, and a vid to detach is not in it. */
  ghost predicate OnTheWay(s: State, v: nat, n: SideName) {
    && CanRun(s, v) && Scanning(s, v, n) && SideReady(SideOf(s, n), Op(s.threads[v].kind, v))
    && var Scan(_, _, best, least, loaded) := s.threads[v].pc;
       && loaded == TableOf(SideOf(s, n)).plans[..|loaded|]
       && (loaded == [] ==> best == -1 && least == MAX_VHOSTS)
       && (if s.threads[v].kind.Attach? then
             loaded != [] ==> 0 <= best && Plans.IsFirstLeast(loaded, best) && least == |loaded[best]|
           else
             forall i :: 0 <= i < |loaded| ==> v !in loaded[i])
  }

  lemma ScanAttachOnce(s: State, v: nat, n: SideName)
    requires OnTheWay(s, v, n) && s.threads[v].kind.Attach?
    ensures var pc' := ScanStep(s, v).threads[v].pc;
      if s.threads[v].pc.next < |SideOf(s, n).plans| then OnTheWay(ScanStep(s, v), v, n)
      else pc'.PlanLoad? && pc'.side == n && Chosen(s, v, n, pc'.at)
  {
    var pc, plans := s.threads[v].pc, TableOf(SideOf(s, n)).plans;
    if pc.next < |plans| {
      assert |SideOf(s, n).plans[pc.next].val| < MAX_VHOSTS;
      LeastStep(pc.loaded, pc.best, plans[pc.next]);
      assert plans[..pc.next + 1] == pc.loaded + [plans[pc.next]];
    } else {
      assert plans[..|plans|] == plans;
    }
  }

  lemma ScanDetachOnce(s: State, v: nat, n: SideName)
    requires OnTheWay(s, v, n) && s.threads[v].kind.Detach?
    ensures var pc' := ScanStep(s, v).threads[v].pc;
      && s.threads[v].pc.next < |SideOf(s, n).plans|
      && (if pc'.Scan? then OnTheWay(ScanStep(s, v), v, n)
          else pc'.PlanLoad? && pc'.side == n && Chosen(s, v, n, pc'.at))
  {
    var pc, plans := s.threads[v].pc, TableOf(SideOf(s, n)).plans;
    var c :| 0 <= c < |plans| && v in SideOf(s, n).plans[c].val;
    assert v in plans[c];
    assert forall i :: 0 <= i < |pc.loaded| ==> pc.loaded[i] == plans[i] && v !in plans[i];
    assert plans[..pc.next + 1] == pc.loaded + [plans[pc.next]];
  }

  lemma ScanOnce(s: State, v: nat, n: SideName)
    requires OnTheWay(s, v, n)
    ensures var s' := ScanStep(s, v);
      && |s'.threads| == MAX_VHOSTS && s' == Goto(s, v, s'.threads[v].pc)
      && (s'.threads[v].pc.Scan? ==> OnTheWay(s', v, n) && |s'.threads[v].pc.loaded| == |s.threads[v].pc.loaded| + 1)
      && (!s'.threads[v].pc.Scan? ==>
            s'.threads[v].pc.PlanLoad? && s'.threads[v].pc.side == n && Chosen(s, v, n, s'.threads[v].pc.at))
  {
    if s.threads[v].kind.Attach? {
      ScanAttachOnce(s, v, n);
    } else {
      ScanDetachOnce(s, v, n);
    }
  }

  lemma GotoTwice(s: State, v: nat, a: Pc, b: Pc)
    requires v < |s.threads|
    ensures Goto(Goto(s, v, a), v, b) == Goto(s, v, b)
  {
  }

  lemma {:induction false} ScanAlone(s: State, v: nat, n: SideName) returns (k: nat, c: nat)
    requires OnTheWay(s, v, n)
    ensures RunFor(s, v, k) == Goto(s, v, PlanLoad(n, c)) && Chosen(s, v, n, c)
    decreases |SideOf(s, n).plans| - |s.threads[v].pc.loaded|
  {
    RunOnce(s, v);
    ScanOnce(s, v, n);
    var s1 := ScanStep(s, v);
    if s1.threads[v].pc.Scan? {
      k, c := ScanAlone(s1, v, n);
      GotoTwice(s, v, s1.threads[v].pc, PlanLoad(n, c));
      RunForAdd(s, v, 1, k);
      k := k + 1;
    } else {
      k, c := 1, s1.threads[v].pc.at;
    }
  }

  /** What a callback does to one side. */
  ghost predicate SideDone(t: Plans.Table, t': Plans.Table, op: Op) {
    if op.kind.Attach? then
      exists c :: Plans.AppendedOn(t, t', op.vid, c)
    else
      exists c, i :: Plans.TakenFrom(t, t', op.vid, c, i)
  }

  lemma SwapOnTable(x: Side, op: Op, c: nat)
    requires SideShaped(x) && c < |x.plans| && op.vid < MAX_VHOSTS
    requires op.kind.Attach? ==> Plans.IsFirstLeast(TableOf(x).plans, c) && |x.plans[c].val| < MAX_VHOSTS
    requires op.kind.Detach? ==>
      op.vid in x.plans[c].val && forall d :: 0 <= d < c ==> op.vid !in TableOf(x).plans[d]
    ensures var x' := Swap(x, op, c, x.plans[c].val);
      SideDone(TableOf(x), TableOf(x'.(core := x.core[op.vid := if op.kind.Attach? then c else 0])), op)
  {
    var t, p := TableOf(x), x.plans[c].val;
    var x' := Swap(x, op, c, p).(core := x.core[op.vid := if op.kind.Attach? then c else 0]);
    if op.kind.Attach? {
      assert TableOf(x').plans == t.plans[c := p + [op.vid]];
      assert Plans.AppendedOn(t, TableOf(x'), op.vid, c);
    } else {
      var i := Plans.IndexIn(p, op.vid);
      Plans.WithoutAt(p, op.vid, i);
      assert TableOf(x').plans == t.plans[c := p[..i] + p[i + 1..]];
      assert Plans.TakenFrom(t, TableOf(x'), op.vid, c, i);
    }
  }

  /** Side `n` went through `v`'s callback, the list and the other side did not. */
  ghost predicate SideRan(s: State, s': State, v: nat, n: SideName)
    requires v < |s.threads|
  {
    && CanRun(s', v)
    && SideDone(TableOf(SideOf(s, n)), TableOf(SideOf(s', n)), Op(s.threads[v].kind, v))
    && s'.list == s.list && (if n.Rx? then s'.tx == s.tx else s'.rx == s.rx)
    && s'.threads[v].kind == s.threads[v].kind
    && s'.threads[v].pc == if n.Rx? then StartScan(Tx) else Idle
  }

  lemma PlaceAlone(s: State, v: nat, n: SideName, c: nat)
    requires CanRun(s, v) && s.threads[v].pc == PlanLoad(n, c) && Chosen(s, v, n, c)
    requires SideReady(SideOf(s, n), Op(s.threads[v].kind, v))
    ensures SideRan(s, RunFor(s, v, 3), v, n)
  {
    var s1 := RunStep(s, v);
    assert CanRun(s1, v);
    var s2 := RunStep(s1, v);
    assert s2.threads[v].pc == Record(n, c);
    assert CanRun(s2, v);
    RunForThree(s, v);
    SwapOnTable(SideOf(s, n), Op(s.threads[v].kind, v), c);
  }

  /** Moving the callback's own position leaves the sides and the choice alone. */
  lemma GotoRan(s: State, v: nat, n: SideName, c: nat, s': State)
    requires Shaped(s) && v < MAX_VHOSTS && Chosen(s, v, n, c)
    requires SideReady(SideOf(s, n), Op(s.threads[v].kind, v))
    ensures var s1 := Goto(s, v, PlanLoad(n, c));
      && CanRun(s1, v) && Chosen(s1, v, n, c) && SideReady(SideOf(s1, n), Op(s1.threads[v].kind, v))
      && (SideRan(s1, s', v, n) ==> SideRan(s, s', v, n))
  {
    var s1 := Goto(s, v, PlanLoad(n, c));
    assert SideOf(s1, Rx) == SideOf(s, Rx) && SideOf(s1, Tx) == SideOf(s, Tx);
    assert s1.threads[v].kind == s.threads[v].kind;
  }

  lemma SideAlone(s: State, v: nat, n: SideName) returns (k: nat)
    requires CanRun(s, v) && s.threads[v].pc == StartScan(n)
    requires SideReady(SideOf(s, n), Op(s.threads[v].kind, v))
    ensures SideRan(s, RunFor(s, v, k), v, n)
  {
    var j, c := ScanAlone(s, v, n);
    GotoRan(s, v, n, c, RunFor(RunFor(s, v, j), v, 3));
    PlaceAlone(RunFor(s, v, j), v, n, c);
    RunForAdd(s, v, j, 3);
    k := j + 3;
  }

  lemma SidesAlone(s: State, v: nat) returns (k: nat)
    requires CanRun(s, v) && s.threads[v].pc == StartScan(Rx)
    requires SideReady(s.rx, Op(s.threads[v].kind, v)) && SideReady(s.tx, Op(s.threads[v].kind, v))
    ensures var s', op := RunFor(s, v, k), Op(s.threads[v].kind, v);
      && CanRun(s', v) && s'.list == s.list && s'.threads[v].pc.Idle?
      && SideDone(TableOf(s.rx), TableOf(s'.rx), op) && SideDone(TableOf(s.tx), TableOf(s'.tx), op)
  {
    var b := SideAlone(s, v, Rx);
    var d := SideAlone(RunFor(s, v, b), v, Tx);
    RunForAdd(s, v, b, d);
    k := b + d;
  }

  /** In every reachable state a callback that begins finds what it needs. */
  lemma BeginReady(s: State, v: nat, kind: Kind)
    requires Inv(s) && v < MAX_VHOSTS && Enabled(s, Begin(v, kind))
    ensures var s0 := Step(s, Begin(v, kind));
      && CanRun(s0, v) && ListReady(s0, v) && s0.list == s.list && s0.rx == s.rx && s0.tx == s.tx
      && s0.threads[v].kind == kind && s0.threads[v].pc.ListCheck?
      && SideReady(s.rx, Op(kind, v)) && SideReady(s.tx, Op(kind, v))
  {
    assert VidInv(s, v);
    if kind.Attach? {
      ListHasRoom(s.list.val, v);
      SideHasRoom(s.rx, v);
      SideHasRoom(s.tx, v);
    } else {
      assert v in s.rx.plans[s.rx.loc[v]].val;
      assert v in s.tx.plans[s.tx.loc[v]].val;
    }
  }

  lemma SideHasRoom(x: Side, v: nat)
    requires SideOk(x) && v < MAX_VHOSTS && v !in x.loc
    ensures SideReady(x, Op(Attach, v))
  {
    forall c | 0 <= c < |x.plans|
      ensures |x.plans[c].val| < MAX_VHOSTS
    {
      PlanHasRoom(x, v, c);
    }
  }

  /** A callback that starts in any reachable state and runs alone completes, with
      the list, both sides and the recorded cores changed for its vid exactly as one
      whole operation changes them. */
  lemma CallbackAlone(s: State, v: nat, kind: Kind) returns (k: nat)
    requires Inv(s) && v < MAX_VHOSTS && Enabled(s, Begin(v, kind))
    ensures var s' := RunFor(Step(s, Begin(v, kind)), v, k);
      && Inv(s') && s'.threads[v].pc.Idle?
      && s'.list.val.vdevs == (if kind.Attach? then s.list.val.vdevs + {v} else s.list.val.vdevs - {v})
      && s'.list.val.num == (if kind.Attach? then s.list.val.num + 1 else s.list.val.num - 1)
      && SideDone(TableOf(s.rx), TableOf(s'.rx), Op(kind, v))
      && SideDone(TableOf(s.tx), TableOf(s'.tx), Op(kind, v))
  {
    BeginReady(s, v, kind);
    k := ListAndSidesAlone(Step(s, Begin(v, kind)), v);
    BegunInv(s, v, kind, k);
  }

  lemma BegunInv(s: State, v: nat, kind: Kind, k: nat)
    requires Inv(s) && v < MAX_VHOSTS && Enabled(s, Begin(v, kind))
    ensures Inv(RunFor(Step(s, Begin(v, kind)), v, k))
  {
    StepKeepsInv(s, Begin(v, kind));
    RunForInv(Step(s, Begin(v, kind)), v, k);
  }

  lemma ListAndSidesAlone(s: State, v: nat) returns (k: nat)
    requires CanRun(s, v) && s.threads[v].pc.ListCheck? && ListReady(s, v)
    requires SideReady(s.rx, Op(s.threads[v].kind, v)) && SideReady(s.tx, Op(s.threads[v].kind, v))
    ensures var s', op := RunFor(s, v, k), Op(s.threads[v].kind, v);
      && CanRun(s', v) && s'.threads[v].pc.Idle? && s'.list.val == BuildList(op, s.list.val)
      && SideDone(TableOf(s.rx), TableOf(s'.rx), op) && SideDone(TableOf(s.tx), TableOf(s'.tx), op)
  {
    var a := if s.threads[v].kind.Attach? then 3 else 5;
    if s.threads[v].kind.Attach? {
      AttachListAlone(s, v);
    } else {
      DetachListAlone(s, v);
    }
    var b := SidesAlone(RunFor(s, v, a), v);
    RunForAdd(s, v, a, b);
    k := a + b;
  }
}
