/** Whole runs of attach, detach and replan over both sides of the switch. */
module Switch {
  import opened Arith
  import opened Finite
  import opened Topology
  import opened Plans

  /** `live` is the set of non-NULL slots of vdev_list, `num` its counter. */
  datatype State = State(live: set<nat>, num: int, rx: Table, tx: Table)

  datatype Event =
    | Attach(vid: nat)
    | Detach(vid: nat)
    | ReplanAll(busy: seq<set<nat>>)

  function EmptyTable(cores: nat): Table {
    Table(seq(cores, i => []), seq(MAX_VHOSTS, i => 0))
  }

  function Initial(rxCores: nat, txCores: nat): State {
    State({}, 0, EmptyTable(rxCores), EmptyTable(txCores))
  }

  /** The vhost library hands out vids below 64 and never one that is in use;
      a replan sees one set of statistics per RX core. */
  predicate Enabled(s: State, e: Event) {
    match e
    case Attach(vid) => vid < MAX_VHOSTS && vid !in s.live
    case Detach(vid) => vid < MAX_VHOSTS
    case ReplanAll(busy) => |busy| == |s.rx.plans|
  }

  predicate Sized(s: State) {
    && |s.rx.plans| > 0 && |s.tx.plans| > 0
    && |s.rx.core| == |s.tx.core| == MAX_VHOSTS
  }

  /** new_device: each failed stage returns without undoing the earlier ones. */
  function AttachDevice(s: State, vid: nat): State
    requires Sized(s) && vid < MAX_VHOSTS
  {
    if s.num >= MAX_VHOSTS then s
    else
      var listed := s.(live := s.live + {vid}, num := s.num + 1);
      if !AddFits(s.rx) then listed
      else
        var polled := listed.(rx := Add(s.rx, vid));
        if !AddFits(s.tx) then polled else polled.(tx := Add(s.tx, vid))
  }

  /** destroy_device: an unknown vid changes nothing. */
  function DetachDevice(s: State, vid: nat): State
    requires Sized(s) && vid < MAX_VHOSTS
  {
    if vid !in s.live then s
    else
      var unlisted := s.(live := s.live - {vid}, num := s.num - 1);
      if FindCore(s.rx.plans, vid) == |s.rx.plans| then unlisted
      else
        var unpolled := unlisted.(rx := Remove(s.rx, vid));
        if FindCore(s.tx.plans, vid) == |s.tx.plans| then unpolled
        else unpolled.(tx := Remove(s.tx, vid))
  }

  function Step(s: State, e: Event): (s': State)
    requires Sized(s) && Enabled(s, e)
    ensures Sized(s') && |s'.rx.plans| == |s.rx.plans| && |s'.tx.plans| == |s.tx.plans|
  {
    match e
    case Attach(vid) => AttachDevice(s, vid)
    case Detach(vid) => DetachDevice(s, vid)
    case ReplanAll(busy) => s.(rx := Replan(s.rx, s.live, busy), tx := ReplanTx(s.tx, s.live))
  }

  ghost predicate Legal(s: State, run: seq<Event>)
    requires Sized(s)
    decreases |run|
  {
    run == [] || (Enabled(s, run[0]) && Legal(Step(s, run[0]), run[1..]))
  }

  ghost function After(s: State, run: seq<Event>): (s': State)
    requires Sized(s) && Legal(s, run)
    ensures Sized(s') && |s'.rx.plans| == |s.rx.plans| && |s'.tx.plans| == |s.tx.plans|
    decreases |run|
  {
    if run == [] then s else After(Step(s, run[0]), run[1..])
  }

  ghost predicate Safe(s: State) {
    && Inv(s.rx, s.live)
    && Inv(s.tx, s.live)
    && s.num == |s.live|
  }

  lemma InitialSafe(rxCores: nat, txCores: nat)
    requires rxCores > 0 && txCores > 0
    ensures Safe(Initial(rxCores, txCores))
  {
  }

  /** Attaching a free vid always succeeds, on the list and on both sides. */
  lemma AttachSucceeds(s: State, vid: nat)
    requires Safe(s) && Enabled(s, Attach(vid))
    ensures Step(s, Attach(vid)) == State(s.live + {vid}, s.num + 1, Add(s.rx, vid), Add(s.tx, vid))
    ensures Safe(Step(s, Attach(vid)))
    ensures exists c :: AppendedOn(s.rx, Step(s, Attach(vid)).rx, vid, c)
    ensures exists c :: AppendedOn(s.tx, Step(s, Attach(vid)).tx, vid, c)
  {
    AddMeaning(s.rx, vid);
    AddMeaning(s.tx, vid);
    AddKeepsInv(s.rx, s.live, vid);
    AddKeepsInv(s.tx, s.live, vid);
    RoomLeft(s.live, MAX_VHOSTS, vid);
  }

  lemma AttachFits(s: State, vid: nat)
    requires Sized(s) && vid < MAX_VHOSTS
    ensures Safe(s) && vid !in s.live ==> s.num < MAX_VHOSTS && AddFits(s.rx) && AddFits(s.tx)
  {
    if Safe(s) && vid !in s.live {
      AddKeepsInv(s.rx, s.live, vid);
      AddKeepsInv(s.tx, s.live, vid);
      RoomLeft(s.live, MAX_VHOSTS, vid);
    }
  }

  lemma DetachSucceeds(s: State, vid: nat)
    requires Safe(s) && vid in s.live
    ensures Step(s, Detach(vid)) == State(s.live - {vid}, s.num - 1, Remove(s.rx, vid), Remove(s.tx, vid))
    ensures Safe(Step(s, Detach(vid)))
    ensures exists c, i :: TakenFrom(s.rx, Step(s, Detach(vid)).rx, vid, c, i)
    ensures exists c, i :: TakenFrom(s.tx, Step(s, Detach(vid)).tx, vid, c, i)
  {
    RemoveMeaning(s.rx, vid);
    RemoveMeaning(s.tx, vid);
    RemoveKeepsInv(s.rx, s.live, vid);
    RemoveKeepsInv(s.tx, s.live, vid);
  }

  /** A replan publishes, for any statistics, RX plans with the busy members first and
      sorted TX plans, and changes nothing else. */
  lemma ReplanReorders(s: State, busy: seq<set<nat>>)
    requires Safe(s) && |busy| == |s.rx.plans|
    ensures var s' := Step(s, ReplanAll(busy));
      s'.live == s.live && s'.num == s.num && Reordered(s.rx, s'.rx, busy) && SortedAll(s.tx, s'.tx)
  {
    ReplanMeaning(s.rx, s.live, busy);
    ReplanMeaning(s.tx, s.live, seq(|s.tx.plans|, i => s.live));
  }

  lemma StepKeepsSafe(s: State, e: Event)
    requires Safe(s) && Enabled(s, e)
    ensures Safe(Step(s, e))
  {
    match e
    case Attach(vid) => AttachSucceeds(s, vid);
    case Detach(vid) => if vid in s.live { DetachSucceeds(s, vid); }
    case ReplanAll(busy) =>
      ReplanKeepsInv(s.rx, s.live, busy);
      ReplanKeepsInv(s.tx, s.live, seq(|s.tx.plans|, i => s.live));
  }

  /** After every run: each live VM is in exactly one RX plan and one TX plan,
      the one its recorded affinity names; dead VMs are in none; the list counter
      is the number of live VMs; and an attach of any free vid will succeed. */
  lemma {:induction false} RunKeepsSafe(s: State, run: seq<Event>)
    requires Safe(s) && Legal(s, run)
    ensures Safe(After(s, run))
    decreases |run|
  {
    if run != [] {
      StepKeepsSafe(s, run[0]);
      RunKeepsSafe(Step(s, run[0]), run[1..]);
    }
  }

  /** The set of live VMs is what the run's attaches and detaches say. */
  ghost function LiveAfter(live: set<nat>, run: seq<Event>): set<nat>
    decreases |run|
  {
    if run == [] then live
    else match run[0]
      case Attach(vid) => LiveAfter(live + {vid}, run[1..])
      case Detach(vid) => LiveAfter(live - {vid}, run[1..])
      case ReplanAll(_) => LiveAfter(live, run[1..])
  }

  lemma {:induction false} RunLive(s: State, run: seq<Event>)
    requires Safe(s) && Legal(s, run)
    ensures After(s, run).live == LiveAfter(s.live, run)
    decreases |run|
  {
    if run != [] {
      StepKeepsSafe(s, run[0]);
      match run[0] {
        case Attach(vid) => AttachSucceeds(s, vid);
        case Detach(vid) =>
          if vid in s.live { DetachSucceeds(s, vid); } else { assert s.live - {vid} == s.live; }
        case ReplanAll(_) =>
      }
      RunLive(Step(s, run[0]), run[1..]);
    }
  }

  /** `v` is in exactly one core's plan. */
  ghost predicate OnOneCore(t: Table, v: nat) {
    exists c :: 0 <= c < |t.plans| && v in t.plans[c]
             && (forall i :: 0 <= i < |t.plans| && v in t.plans[i] ==> i == c)
  }

  ghost predicate OnNoCore(t: Table, v: nat) {
    forall i :: 0 <= i < |t.plans| ==> v !in t.plans[i]
  }

  /** After every run from start-up: a VM that the run leaves attached has exactly
      one poller and one sender, any other VM has none, and the list counter is the
      number of attached VMs. */
  lemma OnePollerOneSender(rxCores: nat, txCores: nat, run: seq<Event>, v: nat)
    requires rxCores > 0 && txCores > 0 && Legal(Initial(rxCores, txCores), run)
    ensures var s := After(Initial(rxCores, txCores), run);
      && s.num == |LiveAfter({}, run)|
      && (v in LiveAfter({}, run) ==> OnOneCore(s.rx, v) && OnOneCore(s.tx, v))
      && (v !in LiveAfter({}, run) ==> OnNoCore(s.rx, v) && OnNoCore(s.tx, v))
  {
    var s0 := Initial(rxCores, txCores);
    InitialSafe(rxCores, txCores);
    RunKeepsSafe(s0, run);
    RunLive(s0, run);
    var s := After(s0, run);
    ExactlyOneCore(s.rx, s.live, v);
    ExactlyOneCore(s.tx, s.live, v);
  }

  // ----- Without detach, greedy placement is round robin

  function Share(n: nat, k: nat, i: nat): nat
    requires k > 0
  {
    n / k + if i < n % k then 1 else 0
  }

  ghost predicate Balanced(t: Table, n: nat)
    requires |t.plans| > 0
  {
    forall i :: 0 <= i < |t.plans| ==> |t.plans[i]| == Share(n, |t.plans|, i)
  }

  lemma NextCore(t: Table, n: nat)
    requires |t.plans| > 0 && Balanced(t, n)
    ensures FirstLeast(t.plans) == n % |t.plans|
  {
    var k := |t.plans|;
    var c := FirstLeast(t.plans);
    assert |t.plans[n % k]| == n / k;
    assert |t.plans[c]| == Share(n, k, c);
  }

  lemma DivStep(n: nat, k: nat)
    requires k > 0
    ensures n % k < k - 1 ==> (n + 1) / k == n / k && (n + 1) % k == n % k + 1
    ensures n % k == k - 1 ==> (n + 1) / k == n / k + 1 && (n + 1) % k == 0
  {
    var q, r := n / k, n % k;
    if r < k - 1 {
      ModUnique(n + 1, q, r + 1, k);
    } else {
      assert n + 1 == (q + 1) * k;
      ModUnique(n + 1, q + 1, 0, k);
    }
  }

  lemma AddBalances(t: Table, n: nat, vid: nat)
    requires Shaped(t) && Balanced(t, n) && AddFits(t) && vid < MAX_VHOSTS
    ensures Balanced(Add(t, vid), n + 1)
    ensures Add(t, vid).core[vid] == n % |t.plans|
  {
    NextCore(t, n);
    DivStep(n, |t.plans|);
    var t' := Add(t, vid);
    forall i | 0 <= i < |t'.plans|
      ensures |t'.plans[i]| == Share(n + 1, |t.plans|, i)
    {
      assert |t.plans[i]| == Share(n, |t.plans|, i);
    }
  }

  ghost predicate NoDetach(run: seq<Event>) {
    forall i :: 0 <= i < |run| ==> !run[i].Detach?
  }

  function Appended(order: seq<nat>, e: Event): seq<nat> {
    if e.Attach? then order + [e.vid] else order
  }

  /** `order` followed by the vids a run attaches, in order. */
  ghost function AttachedAfter(order: seq<nat>, run: seq<Event>): seq<nat>
    decreases |run|
  {
    if run == [] then order else AttachedAfter(Appended(order, run[0]), run[1..])
  }

  ghost function Attached(run: seq<Event>): seq<nat> {
    AttachedAfter([], run)
  }

  /** The placement of the vids attached so far. */
  ghost predicate Placed(s: State, order: seq<nat>) {
    && Safe(s)
    && Balanced(s.rx, |order|) && Balanced(s.tx, |order|)
    && (forall j :: 0 <= j < |order| ==> order[j] in s.live)
    && (forall j :: 0 <= j < |order| ==> s.rx.core[order[j]] == j % |s.rx.plans|)
    && (forall j :: 0 <= j < |order| ==> s.tx.core[order[j]] == j % |s.tx.plans|)
  }

  lemma SidePlaced(t: Table, live: set<nat>, order: seq<nat>, vid: nat)
    requires Inv(t, live) && vid < MAX_VHOSTS && vid !in live && Balanced(t, |order|)
    requires forall j :: 0 <= j < |order| ==> order[j] in live
    requires forall j :: 0 <= j < |order| ==> t.core[order[j]] == j % |t.plans|
    ensures var t', order' := Add(t, vid), order + [vid];
      && Balanced(t', |order'|)
      && forall j :: 0 <= j < |order'| ==> order'[j] < MAX_VHOSTS && t'.core[order'[j]] == j % |t.plans|
  {
    AddKeepsInv(t, live, vid);
    AddBalances(t, |order|, vid);
  }

  lemma AttachPlaced(s: State, order: seq<nat>, vid: nat)
    requires Placed(s, order) && Enabled(s, Attach(vid))
    ensures Placed(Step(s, Attach(vid)), order + [vid])
  {
    AttachSucceeds(s, vid);
    SidePlaced(s.rx, s.live, order, vid);
    SidePlaced(s.tx, s.live, order, vid);
  }

  lemma ReplanPlaced(s: State, order: seq<nat>, busy: seq<set<nat>>)
    requires Placed(s, order) && Enabled(s, ReplanAll(busy))
    ensures Placed(Step(s, ReplanAll(busy)), order)
  {
    StepKeepsSafe(s, ReplanAll(busy));
    ReplanKeepsInv(s.rx, s.live, busy);
    ReplanKeepsInv(s.tx, s.live, seq(|s.tx.plans|, i => s.live));
  }

  lemma StepPlaced(s: State, order: seq<nat>, e: Event)
    requires Placed(s, order) && Enabled(s, e) && !e.Detach?
    ensures Placed(Step(s, e), Appended(order, e))
  {
    if e.Attach? {
      AttachPlaced(s, order, e.vid);
    } else {
      ReplanPlaced(s, order, e.busy);
    }
  }

  lemma {:induction false} RunPlaced(s: State, order: seq<nat>, run: seq<Event>)
    requires Placed(s, order) && Legal(s, run) && NoDetach(run)
    ensures Placed(After(s, run), AttachedAfter(order, run))
    decreases |run|
  {
    if run != [] {
      StepPlaced(s, order, run[0]);
      RunPlaced(Step(s, run[0]), Appended(order, run[0]), run[1..]);
    }
  }

  /** In every run of attaches and replans the j-th attached VM (from 0) sits on
      core j mod k of each side, and plan sizes differ by at most one. */
  lemma RoundRobin(rxCores: nat, txCores: nat, run: seq<Event>)
    requires rxCores > 0 && txCores > 0
    requires Legal(Initial(rxCores, txCores), run) && NoDetach(run)
    ensures var s := After(Initial(rxCores, txCores), run);
      && (forall j :: 0 <= j < |Attached(run)| ==>
            && Attached(run)[j] < MAX_VHOSTS
            && s.rx.core[Attached(run)[j]] == j % rxCores && s.tx.core[Attached(run)[j]] == j % txCores)
      && (forall i, j :: 0 <= i < rxCores && 0 <= j < rxCores ==> |s.rx.plans[i]| <= |s.rx.plans[j]| + 1)
      && (forall i, j :: 0 <= i < txCores && 0 <= j < txCores ==> |s.tx.plans[i]| <= |s.tx.plans[j]| + 1)
  {
    var s0 := Initial(rxCores, txCores);
    InitialSafe(rxCores, txCores);
    ModUnique(0, 0, 0, rxCores);
    ModUnique(0, 0, 0, txCores);
    RunPlaced(s0, [], run);
  }
}
