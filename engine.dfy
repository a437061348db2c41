/** The public entry points request_reg and release_reg, as functions from
    the ledger before to the ledger after (or the error returned). */
module Engine {
  import opened Regions
  import opened Placement
  import opened SplitMerge

  /** Growing the region at i in place: carve `size` off the front of the
      hole that follows it, then merge the piece into the region. */
  function Grow(rs: seq<Region>, i: nat, pid: nat, size: nat): seq<Region>
    requires i + 1 < |rs| && Fits(rs[i + 1], size)
  {
    Merge(Carve(rs, i + 1, pid, size), i)
  }

  /** request_reg: an empty ledger, then a zero size, are refused first; a
      pid that already owns a region may only grow into the hole right after
      it (else EMem, whatever the flag); a new pid gets a region carved from
      the hole the flag's strategy picks. */
  function Request(rs: seq<Region>, pid: nat, size: nat, flag: char): Result<seq<Region>>
  {
    if rs == [] then Err(ENullReg)
    else if size == 0 then Err(EEmpty)
    else match FindPid(rs, pid)
      case Some(i) =>
        if i + 1 < |rs| && Fits(rs[i + 1], size) then Ok(Grow(rs, i, pid, size)) else Err(EMem)
      case None =>
        match Select(rs, size, flag)
        case Err(e) => Err(e)
        case Ok(None) => Err(EMem)
        case Ok(Some(h)) => Ok(Carve(rs, h, pid, size))
  }

  /** `out` is `rs` with the region at i grown by `size` into the hole after
      it: the hole moves up and shrinks by `size`, or disappears. */
  ghost predicate GrownAt(rs: seq<Region>, out: seq<Region>, i: nat, size: nat)
    requires i + 1 < |rs|
  {
    && rs[i + 1].size >= size
    && |out| == (if rs[i + 1].size == size then |rs| - 1 else |rs|)
    && (forall k :: 0 <= k < i ==> out[k] == rs[k])
    && out[i] == rs[i].(size := rs[i].size + size)
    && (rs[i + 1].size == size ==> forall k :: i < k < |out| ==> out[k] == rs[k + 1])
    && (rs[i + 1].size > size ==>
          && out[i + 1] == rs[i + 1].(start := rs[i + 1].start + size, size := rs[i + 1].size - size)
          && (forall k :: i + 1 < k < |out| ==> out[k] == rs[k]))
  }

  lemma GrowShape(rs: seq<Region>, i: nat, pid: nat, size: nat)
    requires i + 1 < |rs| && Fits(rs[i + 1], size)
    ensures GrownAt(rs, Grow(rs, i, pid, size), i, size)
  {
    var d := if rs[i + 1].size == size then 0 else 1;
    var c := Carve(rs, i + 1, pid, size);
    CarveShape(rs, i + 1, pid, size);
    MergeShape(c, i);
    var out := Merge(c, i);
    assert out[i] == rs[i].(size := rs[i].size + size);
    if d == 0 {
      forall k | i < k < |out| ensures out[k] == rs[k + 1] {
        assert out[k] == c[k + 1];
      }
    } else {
      assert out[i + 1] == c[i + 2];
      forall k | i + 1 < k < |out| ensures out[k] == rs[k] {
        assert out[k] == c[k + 1];
      }
    }
  }

  /** Growing in place changes no kind or pid: each region of `out` has the
      kind and pid of the region of `rs` at Src(k). */
  function GrownSrc(rs: seq<Region>, i: nat, size: nat, k: nat): nat
    requires i + 1 < |rs|
  {
    if k <= i || rs[i + 1].size > size then k else k + 1
  }

  lemma GrownSame(rs: seq<Region>, out: seq<Region>, i: nat, size: nat, k: nat)
    requires i + 1 < |rs| && GrownAt(rs, out, i, size) && k < |out|
    ensures GrownSrc(rs, i, size, k) < |rs|
    ensures out[k].kind == rs[GrownSrc(rs, i, size, k)].kind && out[k].pid == rs[GrownSrc(rs, i, size, k)].pid
  {
  }

  /** Growing in place keeps holes unowned, pids unique and holes apart. */
  lemma GrownInv(rs: seq<Region>, out: seq<Region>, i: nat, size: nat)
    requires i + 1 < |rs| && GrownAt(rs, out, i, size)
    requires HolesUnowned(rs) && PidsUnique(rs) && NoAdjacentHoles(rs)
    requires rs[i].kind == Proc && rs[i + 1].kind == Hole
    ensures HolesUnowned(out) && PidsUnique(out) && NoAdjacentHoles(out)
  {
    forall k | 0 <= k < |out| && out[k].kind == Hole
      ensures out[k].pid == 0
    {
      GrownSame(rs, out, i, size, k);
    }
    forall k, l | 0 <= k < l < |out| && out[k].kind == Proc && out[l].kind == Proc
      ensures out[k].pid != out[l].pid
    {
      GrownSame(rs, out, i, size, k);
      GrownSame(rs, out, i, size, l);
    }
    forall k | 0 <= k < |out| - 1
      ensures out[k].kind == Proc || out[k + 1].kind == Proc
    {
      GrownSame(rs, out, i, size, k);
      GrownSame(rs, out, i, size, k + 1);
      if k != i {
        var sk := GrownSrc(rs, i, size, k);
        assert GrownSrc(rs, i, size, k + 1) == sk + 1;
        assert rs[sk].kind == Proc || rs[sk + 1].kind == Proc;
      }
    }
  }

  /** Growing keeps the ledger invariant. */
  lemma GrowKeepsInv(rs: seq<Region>, total: nat, i: nat, pid: nat, size: nat)
    requires LedgerInv(rs, total) && i + 1 < |rs| && Fits(rs[i + 1], size) && size > 0
    requires Owns(rs[i], pid)
    ensures LedgerInv(Grow(rs, i, pid, size), total)
  {
    CarveTiles(rs, 0, total, i + 1, pid, size);
    MergeTiles(Carve(rs, i + 1, pid, size), 0, total, i);
    GrowShape(rs, i, pid, size);
    GrownInv(rs, Grow(rs, i, pid, size), i, size);
  }

  /** Carving a fresh region for a pid that owns nothing keeps pids unique
      and holes apart. */
  lemma CarvedInv(rs: seq<Region>, out: seq<Region>, h: nat, pid: nat, size: nat, d: nat)
    requires h < |rs| && CarvedAt(rs, out, h, pid, size, d)
    requires PidsUnique(rs) && NoAdjacentHoles(rs) && rs[h].kind == Hole
    requires forall j :: 0 <= j < |rs| ==> !Owns(rs[j], pid)
    ensures PidsUnique(out) && NoAdjacentHoles(out)
  {
    forall k, l | 0 <= k < l < |out| && out[k].kind == Proc && out[l].kind == Proc
      ensures out[k].pid != out[l].pid
    {
      var sk := if k <= h then k else k - d;
      var sl := if l <= h then l else l - d;
      if k != h && l != h {
        assert out[k] == rs[sk] && out[l] == rs[sl] && sk < sl;
      } else if k == h {
        assert out[l] == rs[sl];
      }
    }
    forall k | 0 <= k < |out| - 1
      ensures out[k].kind == Proc || out[k + 1].kind == Proc
    {
      if k + 1 < h {
        assert rs[k].kind == Proc || rs[k + 1].kind == Proc;
      } else if k > h + d {
        assert rs[k - d].kind == Proc || rs[k - d + 1].kind == Proc;
      } else if k == h + d && d == 1 {
        assert out[k + 1] == rs[h + 1];
        assert rs[h].kind == Proc || rs[h + 1].kind == Proc;
      }
    }
  }

  /** Carving a fresh region for a pid that owns nothing keeps the ledger
      invariant. */
  lemma CarveKeepsInv(rs: seq<Region>, total: nat, h: nat, pid: nat, size: nat)
    requires LedgerInv(rs, total) && h < |rs| && Fits(rs[h], size) && size > 0
    requires FindPid(rs, pid).None?
    ensures LedgerInv(Carve(rs, h, pid, size), total)
  {
    CarveTiles(rs, 0, total, h, pid, size);
    CarveHoles(rs, h, pid, size);
    CarveShape(rs, h, pid, size);
    CarvedInv(rs, Carve(rs, h, pid, size), h, pid, size, if rs[h].size == size then 0 else 1);
  }

  /** request_reg keeps the ledger invariant, and afterwards the pid owns a
      region. */
  lemma RequestKeepsInv(rs: seq<Region>, total: nat, pid: nat, size: nat, flag: char)
    requires LedgerInv(rs, total) && Request(rs, pid, size, flag).Ok?
    ensures LedgerInv(Request(rs, pid, size, flag).value, total)
    ensures FindPid(Request(rs, pid, size, flag).value, pid).Some?
  {
    match FindPid(rs, pid)
    case Some(i) =>
      GrowKeepsInv(rs, total, i, pid, size);
      GrowShape(rs, i, pid, size);
      assert Owns(Grow(rs, i, pid, size)[i], pid);
    case None =>
      var h := Select(rs, size, flag).value.value;
      CarveKeepsInv(rs, total, h, pid, size);
      CarveShape(rs, h, pid, size);
      assert Owns(Carve(rs, h, pid, size)[h], pid);
  }

  /** A pid that owns a region is only ever grown in place: the flag is not
      looked at, and when the next region is not a hole big enough the answer
      is EMem even if another hole would fit. On success its region keeps its
      start and grows by exactly `size`. */
  lemma RequestExisting(rs: seq<Region>, total: nat, pid: nat, size: nat, flag: char, other: char)
    requires LedgerInv(rs, total) && size > 0 && FindPid(rs, pid).Some?
    ensures Request(rs, pid, size, flag) == Request(rs, pid, size, other)
    ensures var i := FindPid(rs, pid).value;
      Request(rs, pid, size, flag).Ok? <==> i + 1 < |rs| && Fits(rs[i + 1], size)
    ensures var i := FindPid(rs, pid).value;
      Request(rs, pid, size, flag).Err? ==> Request(rs, pid, size, flag).error == EMem
    ensures var i := FindPid(rs, pid).value;
      Request(rs, pid, size, flag).Ok? ==>
        GrownAt(rs, Request(rs, pid, size, flag).value, i, size)
  {
    var i := FindPid(rs, pid).value;
    if i + 1 < |rs| && Fits(rs[i + 1], size) {
      GrowShape(rs, i, pid, size);
    }
  }

  /** A new pid: a bad flag is EFlag, no fitting hole is EMem, otherwise the
      region is carved off the front of the strategy's hole and carries the
      pid. */
  lemma RequestFresh(rs: seq<Region>, pid: nat, size: nat, flag: char)
    requires rs != [] && size > 0 && FindPid(rs, pid).None?
    ensures flag !in {'F', 'B', 'W'} ==> Request(rs, pid, size, flag) == Err(EFlag)
    ensures (flag in {'F', 'B', 'W'} && forall j :: 0 <= j < |rs| ==> !Fits(rs[j], size))
              ==> Request(rs, pid, size, flag) == Err(EMem)
    ensures Request(rs, pid, size, flag).Ok? ==>
              var h := Select(rs, size, flag).value.value;
              CarvedAt(rs, Request(rs, pid, size, flag).value, h, pid, size, if rs[h].size == size then 0 else 1)
  {
    if Request(rs, pid, size, flag).Ok? {
      CarveShape(rs, Select(rs, size, flag).value.value, pid, size);
    }
  }

  /** release_reg: an unknown pid is ENotDef; otherwise its region becomes a
      hole with pid 0, absorbs a following hole, and is then absorbed by a
      preceding hole. */
  function Release(rs: seq<Region>, pid: nat): Result<seq<Region>>
  {
    match FindPid(rs, pid)
    case None => Err(ENotDef)
    case Some(i) => Ok(ReleaseAt(rs, i))
  }

  /** The region at i becomes an unowned hole, takes in a hole after it,
      and is taken in by a hole before it. */
  function ReleaseAt(rs: seq<Region>, i: nat): seq<Region>
    requires i < |rs|
  {
    var freed := rs[i := Region(Hole, rs[i].start, rs[i].size, 0)];
    var m := if i + 1 < |freed| && freed[i + 1].kind == Hole then Merge(freed, i) else freed;
    if 0 < i && m[i - 1].kind == Hole then Merge(m, i - 1) else m
  }

  /** `out` is `rs` with the run rs[a..b] (inclusive) made one hole of pid
      0 spanning the same addresses. */
  ghost predicate CoalescedAt(rs: seq<Region>, out: seq<Region>, a: nat, b: nat)
    requires a <= b < |rs|
  {
    && |out| == |rs| - (b - a)
    && (forall k :: 0 <= k < a ==> out[k] == rs[k])
    && out[a].kind == Hole && out[a].pid == 0
    && out[a].start == rs[a].start && End(out[a]) == End(rs[b])
    && (forall k :: a < k < |out| ==> out[k] == rs[k + (b - a)])
  }

  /** The run release_reg turns into one hole: the released region, with the
      hole before it and the hole after it when there are such. */
  function RunStart(rs: seq<Region>, i: nat): nat
    requires i < |rs|
  {
    if 0 < i && rs[i - 1].kind == Hole then i - 1 else i
  }

  function RunEnd(rs: seq<Region>, i: nat): nat
    requires i < |rs|
  {
    if i + 1 < |rs| && rs[i + 1].kind == Hole then i + 1 else i
  }

  /** The released region as a hole, merged with the hole after it. */
  lemma FreedShape(rs: seq<Region>, total: nat, i: nat, m: seq<Region>)
    requires TilesFrom(rs, 0, total) && i < |rs|
    requires var freed := rs[i := Region(Hole, rs[i].start, rs[i].size, 0)];
      m == if i + 1 < |freed| && freed[i + 1].kind == Hole then Merge(freed, i) else freed
    ensures CoalescedAt(rs, m, i, RunEnd(rs, i))
  {
    var freed := rs[i := Region(Hole, rs[i].start, rs[i].size, 0)];
    if i + 1 < |freed| && freed[i + 1].kind == Hole {
      MergeShape(freed, i);
      assert End(rs[i]) == rs[i + 1].start;
    }
  }

  /** ... and then merged into the hole before it. */
  lemma AbsorbedShape(rs: seq<Region>, total: nat, i: nat, e: nat, m: seq<Region>)
    requires TilesFrom(rs, 0, total) && 0 < i <= e < |rs| && CoalescedAt(rs, m, i, e)
    requires rs[i - 1].kind == Hole && rs[i - 1].pid == 0
    ensures CoalescedAt(rs, Merge(m, i - 1), i - 1, e)
  {
    MergeShape(m, i - 1);
    assert End(rs[i - 1]) == rs[i].start;
    var out := Merge(m, i - 1);
    forall k | i - 1 < k < |out| ensures out[k] == rs[k + (e - (i - 1))] {
      assert out[k] == m[k + 1];
    }
  }

  lemma ReleaseShape(rs: seq<Region>, total: nat, pid: nat)
    requires TilesFrom(rs, 0, total) && HolesUnowned(rs) && FindPid(rs, pid).Some?
    ensures var i := FindPid(rs, pid).value;
      CoalescedAt(rs, Release(rs, pid).value, RunStart(rs, i), RunEnd(rs, i))
  {
    var i := FindPid(rs, pid).value;
    var freed := rs[i := Region(Hole, rs[i].start, rs[i].size, 0)];
    var m := if i + 1 < |freed| && freed[i + 1].kind == Hole then Merge(freed, i) else freed;
    FreedShape(rs, total, i, m);
    if 0 < i && m[i - 1].kind == Hole {
      AbsorbedShape(rs, total, i, RunEnd(rs, i), m);
    }
  }

  /** Coalescing a run keeps the tiling. */
  lemma CoalescedTiles(rs: seq<Region>, out: seq<Region>, lo: nat, hi: nat, a: nat, b: nat)
    requires TilesFrom(rs, lo, hi) && a <= b < |rs| && CoalescedAt(rs, out, a, b)
    ensures TilesFrom(out, lo, hi)
  {
    forall k | 0 <= k < |out| - 1
      ensures End(out[k]) == out[k + 1].start
    {
      if k + 1 < a {
        assert End(rs[k]) == rs[k + 1].start;
      } else if k + 1 == a {
        assert End(rs[k]) == rs[k + 1].start;
      } else if k == a {
        assert End(rs[b]) == rs[b + 1].start;
      } else {
        assert End(rs[k + (b - a)]) == rs[k + (b - a) + 1].start;
      }
    }
    assert out[|out| - 1] == if |out| - 1 == a then out[a] else rs[|rs| - 1];
    TilesSum(rs[a..b + 1], rs[a].start, End(rs[b])) by {
      TilesSlice(rs, lo, hi, a, b + 1);
    }
    assert out[a].size > 0;
  }

  /** Coalescing the released run keeps holes unowned, pids unique and (the
      point of the two merges) holes apart. */
  lemma CoalescedInv(rs: seq<Region>, out: seq<Region>, a: nat, b: nat, i: nat)
    requires a <= i <= b < |rs| && CoalescedAt(rs, out, a, b)
    requires HolesUnowned(rs) && PidsUnique(rs) && NoAdjacentHoles(rs)
    requires a == RunStart(rs, i) && b == RunEnd(rs, i)
    ensures HolesUnowned(out) && PidsUnique(out) && NoAdjacentHoles(out)
  {
    var d := b - a;
    forall k, l | 0 <= k < l < |out| && out[k].kind == Proc && out[l].kind == Proc
      ensures out[k].pid != out[l].pid
    {
      var sk := if k < a then k else k + d;
      var sl := if l < a then l else l + d;
      assert out[k] == rs[sk] && out[l] == rs[sl] && sk < sl;
    }
    forall k | 0 <= k < |out| - 1
      ensures out[k].kind == Proc || out[k + 1].kind == Proc
    {
      if k + 1 < a {
        assert rs[k].kind == Proc || rs[k + 1].kind == Proc;
      } else if k + 1 == a {
        var before, first := rs[a - 1], rs[a];
        assert out[k] == before;
        assert before.kind == Proc || first.kind == Proc;
      } else if k == a {
        assert out[k + 1] == rs[b + 1];
        if i < b {
          assert rs[b].kind == Proc || rs[b + 1].kind == Proc;
        }
      } else {
        assert rs[k + d].kind == Proc || rs[k + d + 1].kind == Proc;
      }
    }
  }

  /** Coalescing a run of holes around the released region leaves the claims
      before and after it. */
  lemma CoalescedProcs(rs: seq<Region>, out: seq<Region>, a: nat, b: nat, i: nat)
    requires a <= i <= b < |rs| && CoalescedAt(rs, out, a, b)
    requires i - 1 <= a && b <= i + 1
    requires forall k :: a <= k <= b && k != i ==> rs[k].kind == Hole
    ensures Procs(out) == Procs(rs[..i]) + Procs(rs[i + 1..])
  {
    CoalescedClaims(rs, out, a, b);
    RunClaims(rs, a, b, i);
  }

  /** The coalesced list holds the claims before and after the run. */
  lemma CoalescedClaims(rs: seq<Region>, out: seq<Region>, a: nat, b: nat)
    requires a <= b < |rs| && CoalescedAt(rs, out, a, b)
    ensures Procs(out) == Procs(rs[..a]) + Procs(rs[b + 1..])
  {
    var pre, post := rs[..a], rs[b + 1..];
    assert out[..a] == pre by {
      forall k | 0 <= k < a ensures out[..a][k] == pre[k] { }
    }
    assert out[a + 1..] == post by {
      forall k | 0 <= k < |post| ensures out[a + 1..][k] == post[k] {
        assert out[a + 1 + k] == rs[a + 1 + k + (b - a)];
      }
    }
    assert out == (pre + [out[a]]) + post;
    ProcsConcat(pre + [out[a]], post);
    ProcsConcat(pre, [out[a]]);
    ProcsOne(out[a]);
  }

  /** Holes around position i add no claims. */
  lemma RunClaims(rs: seq<Region>, a: nat, b: nat, i: nat)
    requires a <= i <= b < |rs| && i - 1 <= a && b <= i + 1
    requires forall k :: a <= k <= b && k != i ==> rs[k].kind == Hole
    ensures Procs(rs[..i]) == Procs(rs[..a])
    ensures Procs(rs[i + 1..]) == Procs(rs[b + 1..])
  {
    var pre, post := rs[..a], rs[b + 1..];
    var before := rs[a..i];
    assert rs[..i] == pre + before;
    ProcsConcat(pre, before);
    if a < i {
      assert before == [rs[a]];
      ProcsOne(rs[a]);
    }
    var after := rs[i + 1..b + 1];
    assert rs[i + 1..] == after + post;
    ProcsConcat(after, post);
    if i < b {
      assert after == [rs[b]];
      ProcsOne(rs[b]);
    }
  }

  /** After coalescing the released run, the pid owns nothing. */
  lemma CoalescedForgets(rs: seq<Region>, out: seq<Region>, a: nat, b: nat, i: nat, pid: nat)
    requires a <= i <= b < |rs| && CoalescedAt(rs, out, a, b) && PidsUnique(rs) && Owns(rs[i], pid)
    ensures forall k :: 0 <= k < |out| ==> !Owns(out[k], pid)
  {
    forall k | 0 <= k < |out|
      ensures !Owns(out[k], pid)
    {
      if k < a {
        assert out[k] == rs[k];
      } else if k > a {
        assert out[k] == rs[k + (b - a)];
      }
    }
  }

  /** release_reg keeps the ledger invariant; in particular no two holes end
      up side by side. */
  lemma ReleaseKeepsInv(rs: seq<Region>, total: nat, pid: nat)
    requires LedgerInv(rs, total) && Release(rs, pid).Ok?
    ensures LedgerInv(Release(rs, pid).value, total)
  {
    var i := FindPid(rs, pid).value;
    var out := Release(rs, pid).value;
    ReleaseShape(rs, total, pid);
    CoalescedTiles(rs, out, 0, total, RunStart(rs, i), RunEnd(rs, i));
    CoalescedInv(rs, out, RunStart(rs, i), RunEnd(rs, i), i);
  }

  /** After release_reg the pid owns nothing. */
  lemma ReleaseForgets(rs: seq<Region>, total: nat, pid: nat)
    requires LedgerInv(rs, total) && Release(rs, pid).Ok?
    ensures FindPid(Release(rs, pid).value, pid).None?
  {
    var i := FindPid(rs, pid).value;
    ReleaseShape(rs, total, pid);
    CoalescedForgets(rs, Release(rs, pid).value, RunStart(rs, i), RunEnd(rs, i), i, pid);
  }

  /** release_reg leaves every other claim as it was, in order. */
  lemma ReleaseKeepsOthers(rs: seq<Region>, total: nat, pid: nat)
    requires LedgerInv(rs, total) && Release(rs, pid).Ok?
    ensures var i := FindPid(rs, pid).value;
      Procs(Release(rs, pid).value) == Procs(rs[..i]) + Procs(rs[i + 1..])
  {
    var i := FindPid(rs, pid).value;
    ReleaseShape(rs, total, pid);
    CoalescedProcs(rs, Release(rs, pid).value, RunStart(rs, i), RunEnd(rs, i), i);
  }
}
