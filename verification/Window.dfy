/** The ten-slot activity window of one VM on its RX core (src/vhost/vhost.h:58-71,
    src/slow/slowpath.c:94-113, src/fast/vhost_rx.c:176 and 303-304). */
module Window {
  import opened Arith
  import opened Topology

  const WINDOW_SIZE: nat := 10
  const BYTE_ACTIVE_THRESHOLD: nat := 10 * 1024
  const PKT_ACTIVE_THRESHOLD: nat := 100

  // ----- Plain history: one exact total per interval, oldest first

  ghost function Sum(s: seq<nat>): nat {
    if s == [] then 0 else Sum(s[..|s| - 1]) + s[|s| - 1]
  }

  /** The totals of the last ten intervals, the current one included. */
  ghost function LastTen(history: seq<nat>): (r: seq<nat>)
    ensures |r| == if |history| < 10 then |history| else 10
    ensures forall i :: 0 <= i < |r| ==> r[i] == history[|history| - |r| + i]
  {
    if |history| <= WINDOW_SIZE then history else history[|history| - WINDOW_SIZE..]
  }

  /** Each interval counts once in a total. */
  lemma SumMeaning(s: seq<nat>, x: nat)
    ensures Sum([]) == 0 && Sum(s + [x]) == Sum(s) + x
  {
    assert (s + [x])[..|s|] == s;
  }

  ghost function Bump(history: seq<nat>, n: nat): seq<nat>
    requires history != []
  {
    history[|history| - 1 := history[|history| - 1] + n]
  }

  // ----- The circular window

  /** Slot `idx` of the window is the current interval of the history; going
      backwards round the circle gives older intervals; slots older than the
      history are zero. All modulo 2^32. */
  ghost predicate Tracks(wnd: seq<nat>, idx: nat, history: seq<nat>) {
    && |wnd| == WINDOW_SIZE && idx < WINDOW_SIZE && history != []
    && forall k :: 0 <= k < WINDOW_SIZE ==> wnd[Slot(idx, k)] == Age(history, k) % COUNTER32
  }

  /** The slot of the interval `k` rotations ago. */
  function Slot(idx: nat, k: nat): nat
    requires idx < WINDOW_SIZE && k < WINDOW_SIZE
  {
    if k <= idx then idx - k else idx + WINDOW_SIZE - k
  }

  /** The total of the interval `k` rotations ago, 0 before the start. */
  ghost function Age(history: seq<nat>, k: nat): nat {
    if k < |history| then history[|history| - 1 - k] else 0
  }

  lemma BumpTracks(wnd: seq<nat>, idx: nat, history: seq<nat>, n: nat)
    requires Tracks(wnd, idx, history)
    ensures Tracks(wnd[idx := (wnd[idx] + n) % COUNTER32], idx, Bump(history, n))
  {
    var wnd' := wnd[idx := (wnd[idx] + n) % COUNTER32];
    var h' := Bump(history, n);
    forall k | 0 <= k < WINDOW_SIZE
      ensures wnd'[Slot(idx, k)] == Age(h', k) % COUNTER32
    {
      if k == 0 {
        assert wnd[Slot(idx, 0)] == Age(history, 0) % COUNTER32;
        ModPlus(Age(history, 0), n, COUNTER32);
      } else {
        assert Slot(idx, k) != idx;
      }
    }
  }

  lemma RotateTracks(wnd: seq<nat>, idx: nat, history: seq<nat>)
    requires Tracks(wnd, idx, history)
    ensures var idx' := (idx + 1) % WINDOW_SIZE;
      Tracks(wnd[idx' := 0], idx', history + [0])
  {
    var idx' := (idx + 1) % WINDOW_SIZE;
    var wnd' := wnd[idx' := 0];
    forall k | 0 <= k < WINDOW_SIZE
      ensures wnd'[Slot(idx', k)] == Age(history + [0], k) % COUNTER32
    {
      if k > 0 {
        assert Slot(idx', k) == Slot(idx, k - 1);
        assert wnd[Slot(idx, k - 1)] == Age(history, k - 1) % COUNTER32;
      }
    }
  }

  // ----- Sums

  ghost function SumAges(history: seq<nat>, k: nat): nat {
    if k == 0 then 0 else SumAges(history, k - 1) + Age(history, k - 1)
  }

  lemma {:induction false} SumAgesIsSum(history: seq<nat>, k: nat)
    ensures SumAges(history, k) == if k <= |history| then Sum(history[|history| - k..]) else Sum(history)
  {
    if k > 0 {
      SumAgesIsSum(history, k - 1);
      if k <= |history| {
        var i := |history| - k;
        SumCons(history[i], history[i + 1..]);
        assert [history[i]] + history[i + 1..] == history[i..];
      } else {
        assert history[|history| - |history|..] == history;
      }
    }
  }

  lemma {:induction false} SumCons(x: nat, s: seq<nat>)
    ensures Sum([x] + s) == x + Sum(s)
    decreases |s|
  {
    if s == [] {
      assert [x] + s == [x] && [x][..0] == [];
      assert Sum([x]) == Sum([]) + x;
    } else {
      var t := s[..|s| - 1];
      SumCons(x, t);
      assert ([x] + s)[..|s|] == [x] + t;
    }
  }

  /** The slots summed in array order. */
  ghost function SumTo(wnd: seq<nat>, n: nat): nat
    requires n <= |wnd|
  {
    if n == 0 then 0 else (SumTo(wnd, n - 1) + wnd[n - 1]) % COUNTER32
  }

  ghost function Exact(wnd: seq<nat>, n: nat): nat
    requires n <= |wnd|
  {
    if n == 0 then 0 else Exact(wnd, n - 1) + wnd[n - 1]
  }

  lemma {:induction false} SumToIsExact(wnd: seq<nat>, n: nat)
    requires n <= |wnd|
    ensures SumTo(wnd, n) == Exact(wnd, n) % COUNTER32
  {
    if n > 0 {
      SumToIsExact(wnd, n - 1);
      ModPlus(Exact(wnd, n - 1), wnd[n - 1], COUNTER32);
    }
  }

  /** Around the circle from `idx` backwards, the first `n` slots. */
  ghost function Around(wnd: seq<nat>, idx: nat, n: nat): nat
    requires |wnd| == WINDOW_SIZE && idx < WINDOW_SIZE && n <= WINDOW_SIZE
  {
    if n == 0 then 0 else Around(wnd, idx, n - 1) + wnd[Slot(idx, n - 1)]
  }

  /** Going once round the circle adds every slot once, wherever one starts. */
  lemma AroundIsAll(wnd: seq<nat>, idx: nat)
    requires |wnd| == WINDOW_SIZE && idx < WINDOW_SIZE
    ensures Around(wnd, idx, WINDOW_SIZE) == Exact(wnd, WINDOW_SIZE)
  {
    AroundLow(wnd, idx, idx + 1);
    AroundHigh(wnd, idx, WINDOW_SIZE);
  }

  lemma {:induction false} AroundLow(wnd: seq<nat>, idx: nat, n: nat)
    requires |wnd| == WINDOW_SIZE && idx < WINDOW_SIZE && n <= idx + 1
    ensures Around(wnd, idx, n) == Exact(wnd, idx + 1) - Exact(wnd, idx + 1 - n)
  {
    if n > 0 {
      AroundLow(wnd, idx, n - 1);
    }
  }

  lemma {:induction false} AroundHigh(wnd: seq<nat>, idx: nat, n: nat)
    requires |wnd| == WINDOW_SIZE && idx < WINDOW_SIZE && idx + 1 <= n <= WINDOW_SIZE
    ensures Around(wnd, idx, n)
         == Around(wnd, idx, idx + 1) + Exact(wnd, WINDOW_SIZE) - Exact(wnd, WINDOW_SIZE + idx + 1 - n)
  {
    if n > idx + 1 {
      AroundHigh(wnd, idx, n - 1);
    }
  }

  lemma {:induction false} AroundIsAges(wnd: seq<nat>, idx: nat, history: seq<nat>, n: nat)
    requires Tracks(wnd, idx, history) && n <= WINDOW_SIZE
    ensures Around(wnd, idx, n) % COUNTER32 == SumAges(history, n) % COUNTER32
  {
    if n > 0 {
      AroundIsAges(wnd, idx, history, n - 1);
      ModPlus(Around(wnd, idx, n - 1), wnd[Slot(idx, n - 1)], COUNTER32);
      ModPlus(SumAges(history, n - 1), Age(history, n - 1), COUNTER32);
      ModPlus(Age(history, n - 1), SumAges(history, n - 1), COUNTER32);
      ModPlus(Age(history, n - 1), Around(wnd, idx, n - 1) % COUNTER32, COUNTER32);
    }
  }

  /** The 32-bit sum over the ten slots is the total of the last ten intervals. */
  lemma WindowIsLastTen(wnd: seq<nat>, idx: nat, history: seq<nat>)
    requires Tracks(wnd, idx, history)
    ensures SumTo(wnd, WINDOW_SIZE) == Sum(LastTen(history)) % COUNTER32
  {
    SumToIsExact(wnd, WINDOW_SIZE);
    AroundIsAll(wnd, idx);
    AroundIsAges(wnd, idx, history, WINDOW_SIZE);
    SumAgesIsSum(history, WINDOW_SIZE);
    assert |history| == WINDOW_SIZE ==> history[0..] == history;
  }

  // ----- The statistics record

  class VdevStats {
    const byteWnd: array<nat>
    const pktWnd: array<nat>
    var wndIdx: nat
    ghost var bytes: seq<nat>
    ghost var packets: seq<nat>

    ghost predicate Valid()
      reads this, byteWnd, pktWnd
    {
      && byteWnd != pktWnd
      && Tracks(byteWnd[..], wndIdx, bytes)
      && Tracks(pktWnd[..], wndIdx, packets)
    }

    constructor ()
      ensures Valid() && bytes == [0] && packets == [0]
      ensures fresh(byteWnd) && fresh(pktWnd)
    {
      byteWnd := new nat[WINDOW_SIZE](_ => 0);
      pktWnd := new nat[WINDOW_SIZE](_ => 0);
      wndIdx := 0;
      bytes, packets := [0], [0];
    }

    /** vhost_rx.c:304 */
    method AddPackets(n: nat)
      requires Valid()
      modifies this, pktWnd
      ensures Valid() && bytes == old(bytes) && wndIdx == old(wndIdx)
      ensures |packets| == |old(packets)| > 0 && packets[..|packets| - 1] == old(packets)[..|packets| - 1]
      ensures packets[|packets| - 1] == old(packets)[|packets| - 1] + n
    {
      BumpTracks(pktWnd[..], wndIdx, packets, n);
      pktWnd[wndIdx] := (pktWnd[wndIdx] + n) % COUNTER32;
      packets := Bump(packets, n);
      assert pktWnd[..] == old(pktWnd[..])[wndIdx := (old(pktWnd[wndIdx]) + n) % COUNTER32];
      assert byteWnd[..] == old(byteWnd[..]);
    }

    /** vhost_rx.c:176 */
    method AddBytes(n: nat)
      requires Valid()
      modifies this, byteWnd
      ensures Valid() && packets == old(packets) && wndIdx == old(wndIdx)
      ensures |bytes| == |old(bytes)| > 0 && bytes[..|bytes| - 1] == old(bytes)[..|bytes| - 1]
      ensures bytes[|bytes| - 1] == old(bytes)[|bytes| - 1] + n
    {
      BumpTracks(byteWnd[..], wndIdx, bytes, n);
      byteWnd[wndIdx] := (byteWnd[wndIdx] + n) % COUNTER32;
      bytes := Bump(bytes, n);
      assert byteWnd[..] == old(byteWnd[..])[wndIdx := (old(byteWnd[wndIdx]) + n) % COUNTER32];
      assert pktWnd[..] == old(pktWnd[..]);
    }

    /** slowpath.c:94-107: the verdict of a replan on this VM. */
    method IsActive() returns (active: bool)
      requires Valid()
      ensures active <==>
        || Sum(LastTen(bytes)) % 0x1_0000_0000 > 10240
        || Sum(LastTen(packets)) % 0x1_0000_0000 > 100
    {
      var pktSum, byteSum := 0, 0;
      for k := 0 to WINDOW_SIZE
        invariant pktSum == SumTo(pktWnd[..], k)
        invariant byteSum == SumTo(byteWnd[..], k)
      {
        pktSum := (pktSum + pktWnd[k]) % COUNTER32;
        byteSum := (byteSum + byteWnd[k]) % COUNTER32;
      }
      WindowIsLastTen(pktWnd[..], wndIdx, packets);
      WindowIsLastTen(byteWnd[..], wndIdx, bytes);
      active := byteSum > BYTE_ACTIVE_THRESHOLD || pktSum > PKT_ACTIVE_THRESHOLD;
    }

    /** slowpath.c:109-112: the window moves on one interval. */
    method Rotate()
      requires Valid()
      modifies this, byteWnd, pktWnd
      ensures Valid() && bytes == old(bytes) + [0] && packets == old(packets) + [0]
    {
      RotateTracks(byteWnd[..], wndIdx, bytes);
      RotateTracks(pktWnd[..], wndIdx, packets);
      assert (wndIdx + 1) % WINDOW_SIZE < WINDOW_SIZE;
      wndIdx := (wndIdx + 1) % WINDOW_SIZE;
      byteWnd[wndIdx] := 0;
      pktWnd[wndIdx] := 0;
      bytes, packets := bytes + [0], packets + [0];
      assert byteWnd[..] == old(byteWnd[..])[wndIdx := 0];
      assert pktWnd[..] == old(pktWnd[..])[wndIdx := 0];
    }
  }
}
