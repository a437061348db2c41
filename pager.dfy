/** pager.c: the FIFO, LRU and OPT page-replacement steps over a fixed
    array of frames. Each state record is a class whose step method
    updates its arrays in place; what a step does is stated through the
    sequence functions below (where the requested page lands, which frame
    is the victim), and the replacement policies' promises are proved
    about those functions. */
module Pager {
  const MaxFrames: int := 50
  /** The value of a frame slot that holds no page. */
  const Empty: int := -1

  // ---------------------------------------------------------------------
  // Frames as a sequence

  /** The smallest index holding x, or -1 when no slot holds it. */
  function Position(fs: seq<int>, x: int): (i: int)
    ensures -1 <= i < |fs|
    ensures i == -1 <==> x !in fs
    ensures 0 <= i ==> fs[i] == x && forall j :: 0 <= j < i ==> fs[j] != x
  {
    if fs == [] then -1
    else if fs[0] == x then 0
    else
      var r := Position(fs[1..], x);
      if r == -1 then -1 else r + 1
  }

  /** The non-empty slots hold pairwise different pages. */
  predicate DistinctPages(fs: seq<int>)
  {
    forall i, j :: 0 <= i < j < |fs| && fs[i] != Empty ==> fs[i] != fs[j]
  }

  /** The slot a step writes the page into: the page's own slot on a hit,
      the lowest free slot on a miss when there is one, else the victim. */
  function Slot(fs: seq<int>, page: int, victim: int): (k: int)
    requires 0 <= victim < |fs|
    ensures 0 <= k < |fs|
    ensures page in fs ==> fs[k] == page
    ensures page !in fs && Empty in fs ==> fs[k] == Empty && forall j :: 0 <= j < k ==> fs[j] != Empty
    ensures page !in fs && Empty !in fs ==> k == victim
  {
    if page in fs then Position(fs, page)
    else if Empty in fs then Position(fs, Empty)
    else victim
  }

  /** The frames after a step that picks `victim` when it must evict. */
  function Place(fs: seq<int>, page: int, victim: int): (out: seq<int>)
    requires 0 <= victim < |fs|
  {
    fs[Slot(fs, page, victim) := page]
  }

  /** After a step the page is present; a hit changes nothing; a miss
      changes exactly one slot. */
  lemma PlaceHolds(fs: seq<int>, page: int, victim: int)
    requires 0 <= victim < |fs|
    ensures |Place(fs, page, victim)| == |fs| && page in Place(fs, page, victim)
    ensures page in fs ==> Place(fs, page, victim) == fs
    ensures forall j :: 0 <= j < |fs| && j != Slot(fs, page, victim) ==> Place(fs, page, victim)[j] == fs[j]
  {
    var k := Slot(fs, page, victim);
    assert Place(fs, page, victim)[k] == page;
  }

  /** A page is written only where find_page reported it absent, so the
      loaded pages stay pairwise different. */
  lemma PlaceKeepsDistinct(fs: seq<int>, page: int, victim: int)
    requires 0 <= victim < |fs| && DistinctPages(fs)
    ensures DistinctPages(Place(fs, page, victim))
  {
    var out, k := Place(fs, page, victim), Slot(fs, page, victim);
    forall i, j | 0 <= i < j < |out| && out[i] != Empty
      ensures out[i] != out[j]
    {
      if i == k {
        assert page !in fs || fs[k] == page;
      } else if j == k {
        assert page !in fs || fs[k] == page;
        assert out[i] == fs[i];
      }
    }
  }

  // ---------------------------------------------------------------------
  // The victim choices

  /** The victim of the least-recently-used scan over ts[..k]: the first
      index holding the smallest time. */
  function OldestIn(ts: seq<int>, k: int): (v: int)
    requires 1 <= k <= |ts|
    ensures 0 <= v < k
    ensures forall j :: 0 <= j < k ==> ts[v] <= ts[j]
    ensures forall j :: 0 <= j < v ==> ts[j] > ts[v]
  {
    if k == 1 then 0
    else
      var v := OldestIn(ts, k - 1);
      if ts[k - 1] < ts[v] then k - 1 else v
  }

  /** The first index j >= from with refs[j] == p, or -1 when p does not
      occur again. */
  function NextUseFrom(refs: seq<int>, from: int, p: int): (r: int)
    requires 0 <= from
    ensures r == -1 || (from <= r < |refs| && refs[r] == p)
    ensures r == -1 ==> forall q :: from <= q < |refs| ==> refs[q] != p
    ensures r != -1 ==> forall q :: from <= q < r ==> refs[q] != p
    decreases |refs| - from
  {
    if from >= |refs| then -1
    else if refs[from] == p then from
    else NextUseFrom(refs, from + 1, p)
  }

  /** When the page p is next referenced after position pos, or -1 for never. */
  function NextUse(refs: seq<int>, pos: int, p: int): int
    requires -1 <= pos
  {
    NextUseFrom(refs, pos + 1, p)
  }

  /** The running choice of the optimal scan: the victim so far and the
      latest next use seen (|refs| + 1 once a never-used page was found). */
  datatype Choice = Choice(victim: int, farthest: int)

  /** The optimal scan over fs[..k]. It stops at the first page never used
      again; until then it keeps the frame with the latest next use,
      replacing it only by a strictly later one. */
  function FarthestIn(fs: seq<int>, refs: seq<int>, pos: int, k: int): (c: Choice)
    requires -1 <= pos && 0 <= k <= |fs|
    ensures k == 0 ==> c == Choice(0, -1)
    ensures 0 < k ==> 0 <= c.victim < k
  {
    if k == 0 then Choice(0, -1)
    else
      var c := FarthestIn(fs, refs, pos, k - 1);
      if c.farthest == |refs| + 1 then c
      else
        var u := NextUse(refs, pos, fs[k - 1]);
        if u == -1 then Choice(k - 1, |refs| + 1)
        else if u > c.farthest then Choice(k - 1, u)
        else c
  }

  /** What the scan over fs[..k] has found: either the first page never
      used again, or (when every page so far recurs) the first frame whose
      next use is latest. */
  lemma {:induction false} FarthestSound(fs: seq<int>, refs: seq<int>, pos: int, k: int)
    requires -1 <= pos && 0 <= k <= |fs|
    ensures var c := FarthestIn(fs, refs, pos, k);
      && (c.farthest == |refs| + 1 ==>
        && NextUse(refs, pos, fs[c.victim]) == -1
        && forall j :: 0 <= j < c.victim ==> NextUse(refs, pos, fs[j]) != -1)
      && (c.farthest != |refs| + 1 ==>
        && (forall j :: 0 <= j < k ==> NextUse(refs, pos, fs[j]) != -1)
        && (forall j :: 0 <= j < k ==> NextUse(refs, pos, fs[j]) <= c.farthest)
        && (0 < k ==> c.farthest == NextUse(refs, pos, fs[c.victim]))
        && (forall j :: 0 <= j < c.victim ==> NextUse(refs, pos, fs[j]) < c.farthest))
  {
    if k > 0 {
      FarthestSound(fs, refs, pos, k - 1);
    }
  }

  /** Once the scan has found a page never used again, it stops there. */
  lemma {:induction false} FarthestStays(fs: seq<int>, refs: seq<int>, pos: int, k: int, m: int)
    requires -1 <= pos && 0 <= k <= m <= |fs|
    requires FarthestIn(fs, refs, pos, k).farthest == |refs| + 1
    ensures FarthestIn(fs, refs, pos, m) == FarthestIn(fs, refs, pos, k)
    decreases m - k
  {
    if k < m {
      FarthestStays(fs, refs, pos, k + 1, m);
    }
  }

  /** The optimal victim: the first frame whose page is never referenced
      again after pos; when every page recurs, the frame whose next
      reference is latest (the first such on ties). */
  function OptVictim(fs: seq<int>, refs: seq<int>, pos: int): (v: int)
    requires -1 <= pos && 1 <= |fs|
    ensures 0 <= v < |fs|
    ensures (exists j :: 0 <= j < |fs| && NextUse(refs, pos, fs[j]) == -1) ==>
      && NextUse(refs, pos, fs[v]) == -1
      && forall j :: 0 <= j < v ==> NextUse(refs, pos, fs[j]) != -1
    ensures (forall j :: 0 <= j < |fs| ==> NextUse(refs, pos, fs[j]) != -1) ==>
      && (forall j :: 0 <= j < |fs| ==> NextUse(refs, pos, fs[j]) <= NextUse(refs, pos, fs[v]))
      && (forall j :: 0 <= j < v ==> NextUse(refs, pos, fs[j]) < NextUse(refs, pos, fs[v]))
  {
    FarthestSound(fs, refs, pos, |fs|);
    FarthestIn(fs, refs, pos, |fs|).victim
  }

  // ---------------------------------------------------------------------
  // init_frames and find_page

  /** init_frames: the first n slots become empty. */
  method InitFrames(frames: array<int>, n: int)
    requires n <= frames.Length
    modifies frames
    ensures forall i :: 0 <= i < frames.Length ==> frames[i] == if i < n then Empty else old(frames[i])
  {
    var i := 0;
    while i < n
      invariant 0 <= i <= if n < 0 then 0 else n
      invariant forall j :: 0 <= j < frames.Length ==> frames[j] == if j < i then Empty else old(frames[j])
    {
      frames[i] := Empty;
      i := i + 1;
    }
  }

  /** find_page: the smallest index among the first n slots holding the
      page, or -1. */
  method FindPage(frames: array<int>, n: int, page: int) returns (idx: int)
    requires n <= frames.Length
    ensures 0 <= n ==> idx == Position(frames[..n], page)
    ensures n < 0 ==> idx == -1
  {
    var i := 0;
    while i < n
      invariant 0 <= i <= if n < 0 then 0 else n
      invariant forall j :: 0 <= j < i ==> frames[j] != page
    {
      if frames[i] == page {
        assert frames[..n][i] == page;
        return i;
      }
      i := i + 1;
    }
    assert 0 <= n ==> page !in frames[..n];
    return -1;
  }

  // ---------------------------------------------------------------------
  // FIFOState and fifo_step

  class FifoState {
    var frames: array<int>
    /** The slot replaced next once every slot is in use. */
    var next: int
    var faults: int

    /** The state main sets up: nframes empty slots, next 0, no faults. */
    constructor (nframes: int)
      requires 1 <= nframes <= MaxFrames
      ensures frames.Length == MaxFrames && fresh(frames)
      ensures frames[..nframes] == seq(nframes, _ => Empty)
      ensures next == 0 && faults == 0
    {
      frames := new int[MaxFrames];
      next := 0;
      faults := 0;
      new;
      InitFrames(frames, nframes);
    }

    /** fifo_step: 0 on a hit; on a miss one more fault, the page in the
        lowest free slot, or else in slot `next`, which moves on round
        the nframes slots. */
    method Step(nframes: int, page: int) returns (fault: int)
      requires 1 <= nframes <= frames.Length && 0 <= next < nframes
      modifies this, frames
      ensures frames == old(frames) && frames[nframes..] == old(frames[nframes..])
      ensures frames[..nframes] == Place(old(frames[..nframes]), page, old(next))
      ensures fault == (if page in old(frames[..nframes]) then 0 else 1) && faults == old(faults) + fault
      ensures next == if page in old(frames[..nframes]) || Empty in old(frames[..nframes]) then old(next) else (old(next) + 1) % nframes
      ensures 0 <= next < nframes && page in frames[..nframes]
    {
      ghost var fs := frames[..nframes];
      PlaceHolds(fs, page, next);
      var idx := FindPage(frames, nframes, page);
      if idx != -1 {
        return 0;
      }
      faults := faults + 1;
      var i := 0;
      while i < nframes
        invariant 0 <= i <= nframes
        invariant forall j :: 0 <= j < i ==> frames[j] != Empty
        invariant frames[..] == old(frames[..]) && next == old(next) && faults == old(faults) + 1
      {
        if frames[i] == Empty {
          frames[i] := page;
          assert frames[..nframes] == fs[i := page];
          return 1;
        }
        i := i + 1;
      }
      assert Empty !in fs;
      frames[next] := page;
      next := (next + 1) % nframes;
      assert frames[..nframes] == fs[old(next) := page];
      return 1;
    }
  }

  // ---------------------------------------------------------------------
  // LRUState and lru_step

  class LruState {
    var frames: array<int>
    /** The time each slot's page was last referenced. */
    var lastUsed: array<int>
    var faults: int

    /** The state main sets up: nframes empty slots never used, no faults. */
    constructor (nframes: int)
      requires 1 <= nframes <= MaxFrames
      ensures frames.Length == MaxFrames == lastUsed.Length && frames != lastUsed
      ensures fresh(frames) && fresh(lastUsed)
      ensures frames[..nframes] == seq(nframes, _ => Empty)
      ensures lastUsed[..nframes] == seq(nframes, _ => -1)
      ensures faults == 0
    {
      frames := new int[MaxFrames];
      lastUsed := new int[MaxFrames](_ => -1);
      faults := 0;
      new;
      InitFrames(frames, nframes);
    }

    /** lru_step: a hit only records the time; a miss is one more fault and
        puts the page, with the time, in the lowest free slot, or else in
        the slot used longest ago (the lowest such on ties). */
    method Step(nframes: int, page: int, time: int) returns (fault: int)
      requires 1 <= nframes <= frames.Length && nframes <= lastUsed.Length && frames != lastUsed
      modifies this, frames, lastUsed
      ensures frames == old(frames) && lastUsed == old(lastUsed)
      ensures frames[nframes..] == old(frames[nframes..]) && lastUsed[nframes..] == old(lastUsed[nframes..])
      ensures
        var fs, ts := old(frames[..nframes]), old(lastUsed[..nframes]);
        var k := Slot(fs, page, OldestIn(ts, nframes));
        && frames[..nframes] == Place(fs, page, OldestIn(ts, nframes))
        && lastUsed[..nframes] == ts[k := time]
        && fault == (if page in fs then 0 else 1)
      ensures faults == old(faults) + fault && page in frames[..nframes]
    {
      ghost var fs, ts := frames[..nframes], lastUsed[..nframes];
      PlaceHolds(fs, page, OldestIn(ts, nframes));
      var idx := FindPage(frames, nframes, page);
      if idx != -1 {
        lastUsed[idx] := time;
        assert lastUsed[..nframes] == ts[idx := time];
        return 0;
      }
      faults := faults + 1;
      var i := 0;
      while i < nframes
        invariant 0 <= i <= nframes
        invariant forall j :: 0 <= j < i ==> frames[j] != Empty
        invariant frames[..] == old(frames[..]) && lastUsed[..] == old(lastUsed[..]) && faults == old(faults) + 1
      {
        if frames[i] == Empty {
          frames[i] := page;
          lastUsed[i] := time;
          assert frames[..nframes] == fs[i := page] && lastUsed[..nframes] == ts[i := time];
          return 1;
        }
        i := i + 1;
      }
      assert Empty !in fs;
      var victim := LruScan(lastUsed, nframes);
      frames[victim] := page;
      lastUsed[victim] := time;
      assert frames[..nframes] == fs[victim := page] && lastUsed[..nframes] == ts[victim := time];
      return 1;
    }
  }

  // ---------------------------------------------------------------------
  // OPTState and opt_step

  class OptState {
    var frames: array<int>
    var faults: int

    /** The state main sets up: nframes empty slots, no faults. */
    constructor (nframes: int)
      requires 1 <= nframes <= MaxFrames
      ensures frames.Length == MaxFrames && fresh(frames)
      ensures frames[..nframes] == seq(nframes, _ => Empty)
      ensures faults == 0
    {
      frames := new int[MaxFrames];
      faults := 0;
      new;
      InitFrames(frames, nframes);
    }

    /** opt_step at position pos of the reference string: 0 on a hit; on a
        miss one more fault and the page in the lowest free slot, or else
        in the slot of the optimal victim. */
    method Step(nframes: int, page: int, pos: int, refs: seq<int>) returns (fault: int)
      requires 1 <= nframes <= frames.Length && -1 <= pos
      modifies this, frames
      ensures frames == old(frames) && frames[nframes..] == old(frames[nframes..])
      ensures
        var fs := old(frames[..nframes]);
        && frames[..nframes] == Place(fs, page, OptVictim(fs, refs, pos))
        && fault == (if page in fs then 0 else 1)
      ensures faults == old(faults) + fault && page in frames[..nframes]
    {
      ghost var fs := frames[..nframes];
      PlaceHolds(fs, page, OptVictim(fs, refs, pos));
      var idx := FindPage(frames, nframes, page);
      if idx != -1 {
        return 0;
      }
      faults := faults + 1;
      var i := 0;
      while i < nframes
        invariant 0 <= i <= nframes
        invariant forall j :: 0 <= j < i ==> frames[j] != Empty
        invariant frames[..] == old(frames[..]) && faults == old(faults) + 1
      {
        if frames[i] == Empty {
          frames[i] := page;
          assert frames[..nframes] == fs[i := page];
          return 1;
        }
        i := i + 1;
      }
      assert Empty !in fs;
      var victim := OptScan(frames, nframes, pos, refs);
      frames[victim] := page;
      assert frames[..nframes] == fs[victim := page];
      return 1;
    }
  }

  /** The victim scan of opt_step over the first nframes slots: for each
      page, a search of refs after pos for its next use. */
  method OptScan(frames: array<int>, nframes: int, pos: int, refs: seq<int>) returns (victim: int)
    requires 1 <= nframes <= frames.Length && -1 <= pos
    ensures victim == OptVictim(frames[..nframes], refs, pos)
  {
    ghost var fs := frames[..nframes];
    victim := 0;
    var farthest := -1;
    var i := 0;
    while i < nframes
      invariant 0 <= i <= nframes
      invariant Choice(victim, farthest) == FarthestIn(fs, refs, pos, i)
      invariant farthest != |refs| + 1
    {
      var p := frames[i];
      var nextUse := NextUseScan(refs, pos, p);
      assert p == fs[i];
      if nextUse == -1 {
        victim := i;
        farthest := |refs| + 1;
        FarthestStays(fs, refs, pos, i + 1, nframes);
        return;
      }
      if nextUse > farthest {
        farthest := nextUse;
        victim := i;
      }
      i := i + 1;
    }
  }

  /** The victim scan of lru_step over the first nframes slots: the slot
      with the oldest time, the lowest on ties. */
  method LruScan(lastUsed: array<int>, nframes: int) returns (victim: int)
    requires 1 <= nframes <= lastUsed.Length
    ensures victim == OldestIn(lastUsed[..nframes], nframes)
  {
    ghost var ts := lastUsed[..nframes];
    victim := 0;
    var oldestTime := lastUsed[0];
    var i := 1;
    while i < nframes
      invariant 1 <= i <= nframes
      invariant victim == OldestIn(ts, i) && oldestTime == ts[victim]
    {
      if lastUsed[i] < oldestTime {
        oldestTime := lastUsed[i];
        victim := i;
      }
      i := i + 1;
    }
  }

  /** The search of opt_step for the next reference to p after pos. */
  method NextUseScan(refs: seq<int>, pos: int, p: int) returns (nextUse: int)
    requires -1 <= pos
    ensures nextUse == NextUse(refs, pos, p)
  {
    nextUse := -1;
    var j := pos + 1;
    while j < |refs|
      invariant pos + 1 <= j && nextUse == -1
      invariant NextUse(refs, pos, p) == NextUseFrom(refs, j, p)
      decreases |refs| - j
    {
      if refs[j] == p {
        return j;
      }
      j := j + 1;
    }
  }
}
