/** Why a replan must not run inside an attach or a detach: for every place where
    one replan of a side can fall, exactly when that side is consistent afterwards
    (src/vhost/plan.c:48-91, 97-148 against src/slow/slowpath.c:79-150). */
module Races {
  import opened Finite
  import opened Topology
  import opened Plans

  /** Where a replan falls: before the device list is swapped, before the cores are
      searched, before the plan is loaded for the swap that succeeds, before the
      core is recorded, or after that. */
  datatype Window = BeforeListing | BeforeSearch | BeforeSwap | BeforeRecord | AfterRecord

  lemma PlanFacts(t: Table, live: set<nat>, i: nat, v: nat)
    requires Inv(t, live) && i < |t.plans|
    ensures NoDup(t.plans[i]) && |t.plans[i]| <= MAX_VHOSTS
    ensures v in t.plans[i] <==> v in live && v < |t.core| && t.core[v] == i
  {
    NoDupBound(t.plans[i], MAX_VHOSTS, 0);
  }

  // ----- A replan that sees another device list than the plans were made for

  lemma ReplanMembers(t: Table, live: set<nat>, now: set<nat>, busy: seq<set<nat>>, i: nat, v: nat)
    requires Inv(t, live) && |busy| == |t.plans| && i < |t.plans|
    requires forall w :: w in now ==> w < MAX_VHOSTS
    ensures v in Replan(t, now, busy).plans[i] <==> v in now && t.core[v] == i
  {
    var active := ActiveSet(t.plans[i], now, busy[i]);
    var probe := ProbeSet(active, now, t.core, i);
    assert v in t.plans[i] <==> v in live && t.core[v] == i;
    assert v in active <==> v in t.plans[i] && v in now && v in busy[i];
    assert v in probe <==> v in now && v !in active && t.core[v] == i;
  }

  lemma ReplanNoDup(t: Table, now: set<nat>, busy: seq<set<nat>>, i: nat)
    requires |busy| == |t.plans| && i < |t.plans|
    ensures NoDup(Replan(t, now, busy).plans[i])
  {
    var active := ActiveSet(t.plans[i], now, busy[i]);
    var probe := ProbeSet(active, now, t.core, i);
    AscendingNoDup(active, MAX_VHOSTS);
    AscendingNoDup(probe, MAX_VHOSTS);
    NoDupConcat(Ascending(active, MAX_VHOSTS), Ascending(probe, MAX_VHOSTS));
  }

  /** A replan follows the list: it adopts a listed vid on the core recorded for it
      and drops one that is listed no more. */
  lemma ReplanFollowsList(t: Table, live: set<nat>, now: set<nat>, busy: seq<set<nat>>)
    requires Inv(t, live) && |busy| == |t.plans|
    requires forall w :: w in now ==> w < MAX_VHOSTS
    ensures Inv(Replan(t, now, busy), now)
  {
    var t' := Replan(t, now, busy);
    forall i, v: nat | 0 <= i < |t'.plans|
      ensures v in t'.plans[i] ==> v < MAX_VHOSTS
      ensures v in t'.plans[i] <==> v in now && t'.core[v] == i
    {
      ReplanMembers(t, live, now, busy, i, v);
    }
    forall i | 0 <= i < |t'.plans|
      ensures NoDup(t'.plans[i])
    {
      ReplanNoDup(t, now, busy, i);
    }
  }

  // ----- Attach

  /** plan.c:64-90: the plan is swapped; the recorded core is still the old one. */
  function SwapOnly(t: Table, vid: nat): Table
    requires |t.plans| > 0
  {
    var c := FirstLeast(t.plans);
    t.(plans := t.plans[c := t.plans[c] + [vid]])
  }

  /** plan.c:91 */
  function RecordOnly(t: Table, vid: nat, c: nat): Table
    requires vid < |t.core|
  {
    t.(core := t.core[vid := c])
  }

  /** An attach with a whole replan between the swap and the record. */
  function AttachAroundReplan(t: Table, live: set<nat>, vid: nat, busy: seq<set<nat>>): Table
    requires |t.plans| > 0 && |busy| == |t.plans| && vid < |t.core|
  {
    RecordOnly(Replan(SwapOnly(t, vid), live + {vid}, busy), vid, FirstLeast(t.plans))
  }

  lemma RaceMembers(t: Table, live: set<nat>, vid: nat, busy: seq<set<nat>>, i: nat, v: nat)
    requires Inv(t, live) && |busy| == |t.plans| && vid < MAX_VHOSTS && vid !in live && i < |t.plans|
    ensures var p := AttachAroundReplan(t, live, vid, busy).plans[i];
      && (v != vid ==> (v in p <==> v in t.plans[i]))
      && (v == vid ==> (v in p <==> t.core[vid] == i || (FirstLeast(t.plans) == i && vid in busy[i])))
  {
    var c := FirstLeast(t.plans);
    var mid := SwapOnly(t, vid);
    var active := ActiveSet(mid.plans[i], live + {vid}, busy[i]);
    var probe := ProbeSet(active, live + {vid}, mid.core, i);
    assert v in t.plans[i] <==> v in live && t.core[v] == i;
    assert v in mid.plans[i] <==> v in t.plans[i] || (i == c && v == vid);
    assert v in active <==> v in mid.plans[i] && v in live + {vid} && v in busy[i];
    assert v in probe <==> v in live + {vid} && v !in active && v < MAX_VHOSTS && t.core[v] == i;
  }

  lemma RaceMemberAt(t: Table, live: set<nat>, vid: nat, busy: seq<set<nat>>, i: nat, v: nat)
    requires Inv(t, live) && |busy| == |t.plans| && vid < MAX_VHOSTS && vid !in live && i < |t.plans|
    requires FirstLeast(t.plans) == t.core[vid]
    ensures var t' := AttachAroundReplan(t, live, vid, busy);
      && |t'.plans| == |t.plans| && |t'.core| == |t.core|
      && (v in t'.plans[i] <==> v in live + {vid} && v < MAX_VHOSTS && t'.core[v] == i)
  {
    RaceMembers(t, live, vid, busy, i, v);
    PlanFacts(t, live, i, v);
  }

  lemma RaceConsistent(t: Table, live: set<nat>, vid: nat, busy: seq<set<nat>>)
    requires Inv(t, live) && |busy| == |t.plans| && vid < MAX_VHOSTS && vid !in live
    requires FirstLeast(t.plans) == t.core[vid]
    ensures Inv(AttachAroundReplan(t, live, vid, busy), live + {vid})
  {
    var t' := AttachAroundReplan(t, live, vid, busy);
    forall i, v: nat | 0 <= i < |t'.plans|
      ensures v in t'.plans[i] ==> v < MAX_VHOSTS
      ensures v in t'.plans[i] <==> v in live + {vid} && t'.core[v] == i
    {
      RaceMemberAt(t, live, vid, busy, i, v);
    }
    forall i | 0 <= i < |t'.plans|
      ensures NoDup(t'.plans[i])
    {
      ReplanNoDup(SwapOnly(t, vid), live + {vid}, busy, i);
    }
  }

  /** An attach with a replan between the swap and the record leaves a consistent
      table exactly when the core it chose is the one already recorded for the vid. */
  lemma AttachRaceExact(t: Table, live: set<nat>, vid: nat, busy: seq<set<nat>>)
    requires Inv(t, live) && |busy| == |t.plans| && vid < MAX_VHOSTS && vid !in live
    ensures Inv(AttachAroundReplan(t, live, vid, busy), live + {vid}) <==> FirstLeast(t.plans) == t.core[vid]
  {
    if FirstLeast(t.plans) == t.core[vid] {
      RaceConsistent(t, live, vid, busy);
    } else {
      var t' := AttachAroundReplan(t, live, vid, busy);
      RaceMembers(t, live, vid, busy, t.core[vid], vid);
      assert vid in t'.plans[t.core[vid]] && t'.core[vid] != t.core[vid];
    }
  }

  /** plan.c:64-91 on a core chosen earlier; a full plan makes the attach fail. */
  function PutOn(t: Table, vid: nat, c: nat): Table
    requires c < |t.plans| && vid < |t.core|
  {
    if |t.plans[c]| >= MAX_VHOSTS then t
    else Table(t.plans[c := t.plans[c] + [vid]], t.core[vid := c])
  }

  /** Putting a vid on a core when it is in a plan already is never right, unless
      the plan is full and the attach fails. */
  lemma PutTwice(t: Table, live: set<nat>, vid: nat, c: nat)
    requires Inv(t, live) && vid in live && c < |t.plans|
    ensures Inv(PutOn(t, vid, c), live) <==> |t.plans[c]| >= MAX_VHOSTS
  {
    var r := t.core[vid];
    assert vid in t.plans[r];
    var t' := PutOn(t, vid, c);
    if |t.plans[c]| < MAX_VHOSTS {
      if r == c {
        var k :| 0 <= k < |t.plans[c]| && t.plans[c][k] == vid;
        assert t'.plans[c][k] == t'.plans[c][|t.plans[c]|];
      } else {
        assert vid in t'.plans[r] && t'.core[vid] == c;
      }
    }
  }

  /** A full plan lists every vid. */
  lemma FullListsAll(t: Table, live: set<nat>, c: nat, v: nat)
    requires Inv(t, live) && c < |t.plans| && |t.plans[c]| >= MAX_VHOSTS && v < MAX_VHOSTS
    ensures v in live && t.core[v] == c
  {
    NoDupBound(t.plans[c], MAX_VHOSTS, v);
    assert v in t.plans[c];
  }

  lemma SingleCore(t: Table, live: set<nat>)
    requires Inv(t, live) && |t.plans| == 1
    ensures |t.plans[0]| == |live|
  {
    forall v
      ensures v in live <==> v in Elements(t.plans[0])
    {
      assert v in t.plans[0] <==> v in live && t.core[v] == 0;
    }
    assert live == Elements(t.plans[0]);
    NoDupSize(t.plans[0]);
  }

  lemma OtherPlansEmpty(t: Table, live: set<nat>, c: nat, d: nat)
    requires Inv(t, live) && d < |t.plans| && d != c
    requires forall v: nat :: v < MAX_VHOSTS ==> t.core[v] == c
    ensures t.plans[d] == []
  {
    forall v: nat
      ensures v !in t.plans[d]
    {
      assert v in t.plans[d] <==> v in live && t.core[v] == d;
    }
    assert Elements(t.plans[d]) == {};
    NoDupSize(t.plans[d]);
  }

  /** An attach with one replan of the side in the given window. */
  function AttachWith(t: Table, live: set<nat>, vid: nat, busy: seq<set<nat>>, w: Window): Table
    requires |t.plans| > 0 && |busy| == |t.plans| && vid < |t.core|
  {
    match w
    case BeforeListing => Add(Replan(t, live, busy), vid)
    case BeforeSearch => Add(Replan(t, live + {vid}, busy), vid)
    case BeforeSwap => PutOn(Replan(t, live + {vid}, busy), vid, FirstLeast(t.plans))
    case BeforeRecord => AttachAroundReplan(t, live, vid, busy)
    case AfterRecord => Replan(Add(t, vid), live + {vid}, busy)
  }

  lemma SingleRoom(mid: Table, live: set<nat>, vid: nat)
    requires vid < MAX_VHOSTS && vid !in live && Inv(mid, live + {vid}) && |mid.plans| == 1
    ensures |mid.plans[0]| >= MAX_VHOSTS <==> |live| == MAX_VHOSTS - 1
  {
    SingleCore(mid, live + {vid});
    OneMore(live, vid, MAX_VHOSTS);
  }

  lemma ManyCoresRoom(t: Table, live: set<nat>, vid: nat, mid: Table, c: nat)
    requires Inv(t, live) && vid < MAX_VHOSTS
    requires Inv(mid, live + {vid}) && mid.core == t.core && |mid.plans| == |t.plans| > 1
    requires c < |t.plans| && (IsFirstLeast(t.plans, c) || IsFirstLeast(mid.plans, c))
    ensures |mid.plans[c]| < MAX_VHOSTS
  {
    if |mid.plans[c]| >= MAX_VHOSTS {
      AllOnOneCore(t, live, vid, mid, c);
      assert false;
    }
  }

  lemma RoomExactly(t: Table, live: set<nat>, vid: nat, mid: Table, c: nat)
    requires Inv(t, live) && vid < MAX_VHOSTS && vid !in live
    requires Inv(mid, live + {vid}) && mid.core == t.core && |mid.plans| == |t.plans|
    requires c < |t.plans| && (IsFirstLeast(t.plans, c) || IsFirstLeast(mid.plans, c))
    ensures |mid.plans[c]| >= MAX_VHOSTS <==> |t.plans| == 1 && |live| == MAX_VHOSTS - 1
  {
    if |t.plans| == 1 {
      SingleRoom(mid, live, vid);
    } else {
      ManyCoresRoom(t, live, vid, mid, c);
    }
  }

  /** With the device listed but not planned, a replan adopts it and the attach then
      enters it a second time: that is consistent only where the 64th VM of a
      single core is turned away. */
  lemma AttachAfterReplan(t: Table, live: set<nat>, vid: nat, busy: seq<set<nat>>, c: nat)
    requires Inv(t, live) && |busy| == |t.plans| && vid < MAX_VHOSTS && vid !in live
    requires IsFirstLeast(t.plans, c) || IsFirstLeast(Replan(t, live + {vid}, busy).plans, c)
    ensures Inv(PutOn(Replan(t, live + {vid}, busy), vid, c), live + {vid})
      <==> |t.plans| == 1 && |live| == MAX_VHOSTS - 1
  {
    var mid := Replan(t, live + {vid}, busy);
    ReplanFollowsList(t, live, live + {vid}, busy);
    PutTwice(mid, live + {vid}, vid, c);
    RoomExactly(t, live, vid, mid, c);
  }

  lemma AllOnOneCore(t: Table, live: set<nat>, vid: nat, mid: Table, c: nat)
    requires Inv(t, live) && vid < MAX_VHOSTS
    requires Inv(mid, live + {vid}) && mid.core == t.core && |mid.plans| == |t.plans| > 1
    requires c < |t.plans| && |mid.plans[c]| >= MAX_VHOSTS
    ensures !IsFirstLeast(t.plans, c) && !IsFirstLeast(mid.plans, c)
  {
    forall v: nat | v < MAX_VHOSTS
      ensures v in live + {vid} && t.core[v] == c
    {
      FullListsAll(mid, live + {vid}, c, v);
    }
    var d: nat := if c == 0 then 1 else 0;
    OtherPlansEmpty(mid, live + {vid}, c, d);
    OtherPlansEmpty(t, live, c, d);
    var v: nat := if vid == 0 then 1 else 0;
    assert v in live + {vid} && t.core[v] == c;
    assert v in t.plans[c] <==> v in live && t.core[v] == c;
  }

  /** For every window of an attach, exactly when the side is consistent. */
  lemma AttachWindowExact(t: Table, live: set<nat>, vid: nat, busy: seq<set<nat>>, w: Window)
    requires Inv(t, live) && |busy| == |t.plans| && vid < MAX_VHOSTS && vid !in live
    ensures Inv(AttachWith(t, live, vid, busy, w), live + {vid}) <==>
      match w
      case BeforeListing => true
      case BeforeSearch => |t.plans| == 1 && |live| == MAX_VHOSTS - 1
      case BeforeSwap => |t.plans| == 1 && |live| == MAX_VHOSTS - 1
      case BeforeRecord => FirstLeast(t.plans) == t.core[vid]
      case AfterRecord => true
  {
    match w
    case BeforeListing =>
      ReplanKeepsInv(t, live, busy);
      AddKeepsInv(Replan(t, live, busy), live, vid);
    case BeforeSearch => AttachAfterReplan(t, live, vid, busy, FirstLeast(Replan(t, live + {vid}, busy).plans));
    case BeforeSwap => AttachAfterReplan(t, live, vid, busy, FirstLeast(t.plans));
    case BeforeRecord => AttachRaceExact(t, live, vid, busy);
    case AfterRecord =>
      AddKeepsInv(t, live, vid);
      ReplanKeepsInv(Add(t, vid), live + {vid}, busy);
  }

  /** A concrete failure: with one VM on core 0 the second VM goes to core 1, but
      a replan before the record also puts it on core 0; if it is busy it is then
      polled by both cores. */
  lemma AttachRaceTwoPollers()
    ensures exists t: Table, live: set<nat>, vid: nat, busy: seq<set<nat>> ::
      && Inv(t, live) && |busy| == |t.plans| == 2 && vid < MAX_VHOSTS && vid !in live
      && var t' := AttachAroundReplan(t, live, vid, busy);
         vid in t'.plans[0] && vid in t'.plans[1]
  {
    var t := Table([[0], []], seq(MAX_VHOSTS, i => 0));
    var busy: seq<set<nat>> := [{}, {1}];
    assert t.plans[0] == [0] && t.plans[1] == [];
    assert Inv(t, {0});
    assert FirstLeast(t.plans) == 1;
    RaceMembers(t, {0}, 1, busy, 0, 1);
    RaceMembers(t, {0}, 1, busy, 1, 1);
  }

  /** Another: on a single empty core the first VM is listed, adopted by a replan
      and then entered again, so that every round polls it twice. */
  lemma AttachRaceTwice(t: Table, vid: nat, busy: seq<set<nat>>)
    requires Inv(t, {}) && |busy| == |t.plans| == 1 && vid < MAX_VHOSTS
    ensures AttachWith(t, {}, vid, busy, BeforeSearch).plans == [[vid, vid]]
  {
    var live: set<nat> := {};
    var mid := Replan(t, live + {vid}, busy);
    ReplanFollowsList(t, live, live + {vid}, busy);
    SingleCore(mid, live + {vid});
    var p := mid.plans[0];
    PlanFacts(mid, live + {vid}, 0, p[0]);
    assert p == [vid];
    assert mid.plans == [p];
    assert p + [vid] == [vid, vid];
    assert Add(mid, vid).plans == [[vid, vid]];
    assert AttachWith(t, live, vid, busy, BeforeSearch) == Add(mid, vid);
  }

  // ----- Detach

  /** One side in memory. */
  datatype Image = Image(plans: seq<Memory>, core: seq<nat>)

  function ImageOf(t: Table): Image {
    Image(seq(|t.plans|, i requires 0 <= i < |t.plans| => Stored(t.plans[i])), t.core)
  }

  /** The memory holds this table: the count of every plan is its length. */
  ghost predicate Holds(m: Image, t: Table) {
    && m.core == t.core && |m.plans| == |t.plans|
    && forall i :: 0 <= i < |t.plans| ==> HoldsPlan(m.plans[i], t.plans[i])
  }

  ghost predicate HoldsPlan(m: Memory, p: seq<nat>) {
    m.num == |p| <= |m.vids| == MAX_VHOSTS && m.vids[..m.num] == p
  }

  /** The memory holds a table that satisfies the invariant. */
  ghost predicate Consistent(m: Image, live: set<nat>) {
    exists t :: Holds(m, t) && Inv(t, live)
  }

  /** plan.c:108-148 on the core that the search returned. */
  function DropOn(t: Table, vid: nat, c: nat): Image
    requires c <= |t.plans| && vid < |t.core|
  {
    if c == |t.plans| then ImageOf(t)
    else Image(ImageOf(t).plans[c := Shrink(Stored(t.plans[c]), vid)], t.core[vid := 0])
  }

  /** plan.c:115-146: the swap without the record, for a vid that is there. */
  function SwapOut(t: Table, vid: nat): Table
    requires vid < |t.core|
  {
    Remove(t, vid).(core := t.core)
  }

  /** A detach with one replan of the side in the given window. */
  function DetachWith(t: Table, live: set<nat>, vid: nat, busy: seq<set<nat>>, w: Window): Image
    requires |busy| == |t.plans| && vid < |t.core|
  {
    var rest := live - {vid};
    match w
    case BeforeListing =>
      var mid := Replan(t, live, busy);
      DropOn(mid, vid, FindCore(mid.plans, vid))
    case BeforeSearch =>
      var mid := Replan(t, rest, busy);
      DropOn(mid, vid, FindCore(mid.plans, vid))
    case BeforeSwap => DropOn(Replan(t, rest, busy), vid, FindCore(t.plans, vid))
    case BeforeRecord => ImageOf(RecordOnly(Replan(SwapOut(t, vid), rest, busy), vid, 0))
    case AfterRecord => ImageOf(Replan(Remove(t, vid), rest, busy))
  }

  lemma ImageHolds(t: Table, live: set<nat>)
    requires Inv(t, live)
    ensures Holds(ImageOf(t), t)
  {
    forall i | 0 <= i < |t.plans|
      ensures HoldsPlan(ImageOf(t).plans[i], t.plans[i])
    {
      NoDupBound(t.plans[i], MAX_VHOSTS, 0);
      StoredHolds(t.plans[i]);
    }
  }

  /** Without interference the memory ends up holding what `Remove` says. */
  lemma DropRemoves(t: Table, live: set<nat>, vid: nat)
    requires Inv(t, live) && vid in live
    ensures FindCore(t.plans, vid) < |t.plans|
    ensures Holds(DropOn(t, vid, FindCore(t.plans, vid)), Remove(t, vid))
  {
    var c := FindCore(t.plans, vid);
    RemoveKeepsInv(t, live, vid);
    ImageHolds(t, live);
    assert HoldsPlan(ImageOf(t).plans[c], t.plans[c]);
    ShrinkMeaning(Stored(t.plans[c]), vid);
  }

  lemma RecordDead(t: Table, live: set<nat>, vid: nat, c: nat)
    requires Inv(t, live) && vid !in live && vid < MAX_VHOSTS && c < |t.plans|
    ensures Inv(RecordOnly(t, vid, c), live)
  {
    var t' := RecordOnly(t, vid, c);
    forall i, v: nat | 0 <= i < |t'.plans|
      ensures v in t'.plans[i] <==> v in live && t'.core[v] == i
    {
      assert v in t.plans[i] <==> v in live && t.core[v] == i;
    }
  }

  /** No core's plan lists this vid. */
  ghost predicate LosesVictim(m: Image, victim: nat) {
    forall i :: 0 <= i < |m.plans| ==> Misses(m.plans[i], victim)
  }

  /** The count of an empty plan after one more removal. */
  ghost predicate CountWrapped(m: Memory) {
    m.num == COUNTER16 - 1 && |m.vids| == MAX_VHOSTS
  }

  lemma VictimInconsistent(m: Image, live: set<nat>, victim: nat)
    requires LosesVictim(m, victim) && victim in live
    ensures !Consistent(m, live)
  {
    forall t | Holds(m, t)
      ensures !Inv(t, live)
    {
      assert forall i :: 0 <= i < |t.plans| ==> HoldsPlan(m.plans[i], t.plans[i]);
      NowhereNotInv(t, live, victim);
    }
  }

  lemma NowhereNotInv(t: Table, live: set<nat>, v: nat)
    requires v in live && forall i :: 0 <= i < |t.plans| ==> v !in t.plans[i]
    ensures !Inv(t, live)
  {
    if Inv(t, live) {
      ExactlyOneCore(t, live, v);
      assert false;
    }
  }

  lemma WrappedInconsistent(m: Image, live: set<nat>, c: nat)
    requires c < |m.plans| && CountWrapped(m.plans[c])
    ensures !Consistent(m, live)
  {
    forall t
      ensures !Holds(m, t)
    {
      assert !HoldsPlan(m.plans[c], if c < |t.plans| then t.plans[c] else []);
    }
  }

  lemma StoredHolds(p: seq<nat>)
    requires |p| <= MAX_VHOSTS
    ensures HoldsPlan(Stored(p), p)
  {
  }

  ghost predicate Misses(m: Memory, v: nat) {
    m.num <= |m.vids| && v !in m.vids[..m.num]
  }

  lemma ShrinkEvicts(p: seq<nat>, vid: nat)
    requires NoDup(p) && 0 < |p| <= MAX_VHOSTS && vid !in p
    ensures Misses(Shrink(Stored(p), vid), p[0])
  {
    StoredHolds(p);
    ShrinkMeaning(Stored(p), vid);
  }

  lemma EvictAt(t: Table, vid: nat, c: nat, i: nat)
    requires vid < |t.core| && c < |t.plans| && i < |t.plans| && t.plans[c] != [] && |t.plans[i]| <= MAX_VHOSTS
    requires i == c ==> NoDup(t.plans[c]) && vid !in t.plans[c]
    requires i != c ==> t.plans[c][0] !in t.plans[i]
    ensures i < |DropOn(t, vid, c).plans| && Misses(DropOn(t, vid, c).plans[i], t.plans[c][0])
  {
    if i == c {
      ShrinkEvicts(t.plans[c], vid);
    } else {
      StoredHolds(t.plans[i]);
    }
  }

  /** Removal of a vid that the plan does not hold costs the first entry its place. */
  lemma BlindDropEvicts(t: Table, live: set<nat>, vid: nat, c: nat)
    requires Inv(t, live) && vid < MAX_VHOSTS && vid !in live && c < |t.plans| && t.plans[c] != []
    ensures t.plans[c][0] in live && LosesVictim(DropOn(t, vid, c), t.plans[c][0])
  {
    var victim := t.plans[c][0];
    PlanFacts(t, live, c, victim);
    PlanFacts(t, live, c, vid);
    forall i | 0 <= i < |t.plans|
      ensures Misses(DropOn(t, vid, c).plans[i], victim)
    {
      PlanFacts(t, live, i, victim);
      EvictAt(t, vid, c, i);
    }
  }

  /** Removal from an empty plan wraps its count. */
  lemma BlindDropWraps(t: Table, vid: nat, c: nat)
    requires vid < |t.core| && c < |t.plans| && t.plans[c] == []
    ensures c < |DropOn(t, vid, c).plans| && CountWrapped(DropOn(t, vid, c).plans[c])
  {
    ShrinkMeaning(Stored([]), vid);
  }

  /** A replan between a detach's search and its swap has already dropped the vid.
      Then the swap costs another VM of that core its place, so that it is live and
      in no plan; or, when the vid was alone on its core, it publishes a plan with a
      count of 65535. The side is never consistent afterwards. */
  lemma DetachRaceOutcome(t: Table, live: set<nat>, vid: nat, busy: seq<set<nat>>)
    requires Inv(t, live) && vid in live && |busy| == |t.plans|
    ensures var m := DetachWith(t, live, vid, busy, BeforeSwap);
      && |m.plans| == |t.plans|
      && (t.plans[t.core[vid]] == [vid] ==> CountWrapped(m.plans[t.core[vid]]))
      && (t.plans[t.core[vid]] != [vid] ==> exists victim :: victim in live - {vid} && LosesVictim(m, victim))
      && !Consistent(m, live - {vid})
  {
    var rest := live - {vid};
    var c := t.core[vid];
    var mid := Replan(t, rest, busy);
    RemoveKeepsInv(t, live, vid);
    ReplanFollowsList(t, live, rest, busy);
    forall v: nat
      ensures v in mid.plans[c] <==> v in t.plans[c] && v != vid
    {
      ReplanMembers(t, live, rest, busy, c, v);
      assert v in t.plans[c] <==> v in live && t.core[v] == c;
    }
    AloneExactly(t.plans[c], mid.plans[c], vid);
    var m := DropOn(mid, vid, c);
    if mid.plans[c] == [] {
      BlindDropWraps(mid, vid, c);
      WrappedInconsistent(m, rest, c);
    } else {
      BlindDropEvicts(mid, rest, vid, c);
      VictimInconsistent(m, rest, mid.plans[c][0]);
    }
  }

  lemma AloneExactly(p: seq<nat>, q: seq<nat>, vid: nat)
    requires NoDup(p) && NoDup(q) && vid in p && forall v :: v in q <==> v in p && v != vid
    ensures p == [vid] <==> q == []
  {
    WithoutMembers(p, vid);
    SameMembersSameLength(q, Without(p, vid));
  }

  /** For every window of a detach, exactly when the side is consistent. */
  lemma DetachWindowExact(t: Table, live: set<nat>, vid: nat, busy: seq<set<nat>>, w: Window)
    requires Inv(t, live) && vid in live && |busy| == |t.plans|
    ensures Consistent(DetachWith(t, live, vid, busy, w), live - {vid}) <==> w != BeforeSwap
  {
    var rest := live - {vid};
    match w
    case BeforeListing =>
      var mid := Replan(t, live, busy);
      ReplanKeepsInv(t, live, busy);
      DropRemoves(mid, live, vid);
      RemoveKeepsInv(mid, live, vid);
    case BeforeSearch =>
      var mid := Replan(t, rest, busy);
      ReplanFollowsList(t, live, rest, busy);
      ExactlyOneCore(mid, rest, vid);
      ImageHolds(mid, rest);
    case BeforeSwap => DetachRaceOutcome(t, live, vid, busy);
    case BeforeRecord =>
      RemoveKeepsInv(t, live, vid);
      RecordDead(Remove(t, vid), rest, vid, t.core[vid]);
      assert SwapOut(t, vid) == RecordOnly(Remove(t, vid), vid, t.core[vid]);
      var mid := Replan(SwapOut(t, vid), rest, busy);
      ReplanKeepsInv(SwapOut(t, vid), rest, busy);
      RecordDead(mid, rest, vid, 0);
      ImageHolds(RecordOnly(mid, vid, 0), rest);
    case AfterRecord =>
      RemoveKeepsInv(t, live, vid);
      ReplanKeepsInv(Remove(t, vid), rest, busy);
      ImageHolds(Replan(Remove(t, vid), rest, busy), rest);
  }

  /** A concrete failure: the only VM of a single core is detached around a replan;
      the RX loop then finds a plan of 65535 entries in 64 slots. */
  lemma DetachRaceCountWraps()
    ensures exists t: Table, live: set<nat>, vid: nat, busy: seq<set<nat>> ::
      && Inv(t, live) && vid in live && |busy| == |t.plans| == 1
      && var m := DetachWith(t, live, vid, busy, BeforeSwap);
         |m.plans| == 1 && m.plans[0].num == 65535 && |m.plans[0].vids| == 64
  {
    var t := Table([[0]], seq(MAX_VHOSTS, i => 0));
    var busy: seq<set<nat>> := [{}];
    assert t.plans[0] == [0];
    assert Inv(t, {0});
    DetachRaceOutcome(t, {0}, 0, busy);
  }
}
