/** Splitting a hole (allocate) and merging neighbours (combine), on the
    ledger as a sequence of regions. */
module SplitMerge {
  import opened Regions
  import opened Placement

  /** The ledger after carving a process region of `size` for `pid` off the
      front of the hole at position i; a hole left empty disappears. */
  function Carve(rs: seq<Region>, i: nat, pid: nat, size: nat): (out: seq<Region>)
    requires i < |rs| && Fits(rs[i], size)
  {
    var hole := rs[i];
    var rest := if hole.size == size then [] else [Region(Hole, hole.start + size, hole.size - size, hole.pid)];
    rs[..i] + [Region(Proc, hole.start, size, pid)] + rest + rs[i + 1..]
  }

  /** `out` is `rs` with the hole at i split as carving splits it: a
      process region at the hole's old start with exactly `size`, then (if
      anything is left) the hole moved up and shrunk by `size`; d is the
      number of regions gained. */
  ghost predicate CarvedAt(rs: seq<Region>, out: seq<Region>, i: nat, pid: nat, size: nat, d: nat)
    requires i < |rs|
  {
    && rs[i].size >= size
    && d == (if rs[i].size == size then 0 else 1)
    && |out| == |rs| + d
    && (forall k :: 0 <= k < i ==> out[k] == rs[k])
    && out[i] == Region(Proc, rs[i].start, size, pid)
    && (d == 1 ==> rs[i].size > size && out[i + 1] == Region(Hole, rs[i].start + size, rs[i].size - size, rs[i].pid))
    && (forall k :: i + 1 + d <= k < |out| ==> out[k] == rs[k - d])
  }

  lemma CarveShape(rs: seq<Region>, i: nat, pid: nat, size: nat)
    requires i < |rs| && Fits(rs[i], size)
    ensures CarvedAt(rs, Carve(rs, i, pid, size), i, pid, size, if rs[i].size == size then 0 else 1)
  {
    var out := Carve(rs, i, pid, size);
    var d := if rs[i].size == size then 0 else 1;
    forall k | 0 <= k < i ensures out[k] == rs[k] {
      assert out[k] == rs[..i][k];
    }
    forall k | i + 1 + d <= k < |out| ensures out[k] == rs[k - d] {
      assert out[k] == rs[i + 1..][k - i - 1 - d];
    }
  }

  /** The shape determines the ledger: whatever is carved at i that way is
      Carve's result. */
  lemma CarvedUnique(rs: seq<Region>, out: seq<Region>, i: nat, pid: nat, size: nat, d: nat)
    requires i < |rs| && Fits(rs[i], size) && CarvedAt(rs, out, i, pid, size, d)
    ensures out == Carve(rs, i, pid, size)
  {
    CarveShape(rs, i, pid, size);
    var c := Carve(rs, i, pid, size);
    forall k | 0 <= k < |out| ensures out[k] == c[k] {
    }
  }

  /** Carving keeps the tiling, hence the total size. */
  lemma CarveTiles(rs: seq<Region>, lo: nat, hi: nat, i: nat, pid: nat, size: nat)
    requires TilesFrom(rs, lo, hi)
    requires i < |rs| && Fits(rs[i], size) && size > 0
    ensures TilesFrom(Carve(rs, i, pid, size), lo, hi)
  {
    CarveShape(rs, i, pid, size);
    CarvedTiles(rs, Carve(rs, i, pid, size), lo, hi, i, pid, size, if rs[i].size == size then 0 else 1);
  }

  lemma CarvedTiles(rs: seq<Region>, out: seq<Region>, lo: nat, hi: nat, i: nat, pid: nat, size: nat, d: nat)
    requires TilesFrom(rs, lo, hi) && i < |rs| && Fits(rs[i], size) && size > 0
    requires CarvedAt(rs, out, i, pid, size, d)
    ensures TilesFrom(out, lo, hi)
  {
    forall k | 0 <= k < |out| - 1
      ensures End(out[k]) == out[k + 1].start
    {
      if k + 1 <= i {
        assert End(rs[k]) == rs[k + 1].start;
      } else if k > i + d {
        assert End(rs[k - d]) == rs[k - d + 1].start;
      } else if d == 0 {
        assert End(rs[i]) == rs[i + 1].start;
      } else if k == i + 1 {
        assert End(rs[i]) == rs[i + 1].start;
      }
    }
    assert out[|out| - 1] == if |out| - 1 == i + d && d == 1 then out[i + 1] else if |out| - 1 == i then out[i] else rs[|rs| - 1];
  }

  /** Carving keeps holes unowned. */
  lemma CarveHoles(rs: seq<Region>, i: nat, pid: nat, size: nat)
    requires HolesUnowned(rs)
    requires i < |rs| && Fits(rs[i], size)
    ensures HolesUnowned(Carve(rs, i, pid, size))
  {
    CarveShape(rs, i, pid, size);
  }

  /** Carving adds exactly one claim, in the hole's place. */
  lemma CarveProcs(rs: seq<Region>, i: nat, pid: nat, size: nat)
    requires i < |rs| && Fits(rs[i], size)
    ensures Procs(Carve(rs, i, pid, size)) == Procs(rs[..i]) + [Claim(pid, size)] + Procs(rs[i + 1..])
  {
    var hole := rs[i];
    var a, b, c := rs[..i], [Region(Proc, hole.start, size, pid)], rs[i + 1..];
    var rest := if hole.size == size then [] else [Region(Hole, hole.start + size, hole.size - size, hole.pid)];
    assert Carve(rs, i, pid, size) == a + b + rest + c;
    ProcsConcat(a + b + rest, c);
    ProcsConcat(a + b, rest);
    ProcsConcat(a, b);
    ProcsOne(b[0]);
    assert Procs(b) == [Claim(pid, size)];
    if rest != [] {
      ProcsOne(rest[0]);
    }
    assert Procs(rest) == [];
  }

  /** The ledger after the region at i absorbs its successor. */
  function Merge(rs: seq<Region>, i: nat): (out: seq<Region>)
    requires i + 1 < |rs|
  {
    rs[..i] + [rs[i].(size := rs[i].size + rs[i + 1].size)] + rs[i + 2..]
  }

  /** `out` is `rs` with the regions at i and i + 1 made one: the earlier
      keeps its start and takes both sizes. */
  ghost predicate MergedAt(rs: seq<Region>, out: seq<Region>, i: nat)
    requires i + 1 < |rs|
  {
    && |out| == |rs| - 1
    && (forall k :: 0 <= k < i ==> out[k] == rs[k])
    && out[i] == rs[i].(size := rs[i].size + rs[i + 1].size)
    && (forall k :: i < k < |out| ==> out[k] == rs[k + 1])
  }

  lemma MergeShape(rs: seq<Region>, i: nat)
    requires i + 1 < |rs|
    ensures MergedAt(rs, Merge(rs, i), i)
  {
    var out := Merge(rs, i);
    forall k | 0 <= k < i ensures out[k] == rs[k] {
      assert out[k] == rs[..i][k];
    }
    forall k | i < k < |out| ensures out[k] == rs[k + 1] {
      assert out[k] == rs[i + 2..][k - i - 1];
    }
  }

  lemma MergedUnique(rs: seq<Region>, out: seq<Region>, i: nat)
    requires i + 1 < |rs| && MergedAt(rs, out, i)
    ensures out == Merge(rs, i)
  {
    MergeShape(rs, i);
    var m := Merge(rs, i);
    forall k | 0 <= k < |out| ensures out[k] == m[k] {
    }
  }

  /** Merging keeps the tiling. */
  lemma MergeTiles(rs: seq<Region>, lo: nat, hi: nat, i: nat)
    requires TilesFrom(rs, lo, hi) && i + 1 < |rs|
    ensures TilesFrom(Merge(rs, i), lo, hi)
  {
    MergeShape(rs, i);
    MergedTiles(rs, Merge(rs, i), lo, hi, i);
  }

  lemma MergedTiles(rs: seq<Region>, out: seq<Region>, lo: nat, hi: nat, i: nat)
    requires TilesFrom(rs, lo, hi) && i + 1 < |rs| && MergedAt(rs, out, i)
    ensures TilesFrom(out, lo, hi)
  {
    forall k | 0 <= k < |out| - 1
      ensures End(out[k]) == out[k + 1].start
    {
      if k + 1 < i {
        assert End(rs[k]) == rs[k + 1].start;
      } else if k + 1 == i {
        assert End(rs[k]) == rs[k + 1].start;
      } else if k == i {
        assert End(rs[i + 1]) == rs[i + 2].start;
      } else {
        assert End(rs[k + 1]) == rs[k + 2].start;
      }
    }
    assert out[|out| - 1] == if |out| - 1 == i then out[i] else rs[|rs| - 1];
  }

  /** Merging two holes keeps the claims and the unowned holes. */
  lemma MergeHoles(rs: seq<Region>, i: nat)
    requires i + 1 < |rs| && rs[i].kind == Hole && rs[i + 1].kind == Hole
    ensures Procs(Merge(rs, i)) == Procs(rs)
    ensures HolesUnowned(rs) ==> HolesUnowned(Merge(rs, i))
  {
    MergeHolesClaims(rs, i);
    var out := Merge(rs, i);
    if HolesUnowned(rs) {
      forall k | 0 <= k < |out| && out[k].kind == Hole
        ensures out[k].pid == 0
      {
        if k > i {
          assert out[k] == rs[k + 1];
        }
      }
    }
  }

  lemma MergeHolesClaims(rs: seq<Region>, i: nat)
    requires i + 1 < |rs| && rs[i].kind == Hole && rs[i + 1].kind == Hole
    ensures Procs(Merge(rs, i)) == Procs(rs)
  {
    var pre, post := rs[..i], rs[i + 2..];
    var m := rs[i].(size := rs[i].size + rs[i + 1].size);
    assert Merge(rs, i) == (pre + [m]) + post;
    ProcsConcat(pre + [m], post);
    ProcsConcat(pre, [m]);
    ProcsOne(m);
    assert Procs(Merge(rs, i)) == Procs(pre) + Procs(post);
    assert rs == (pre + [rs[i], rs[i + 1]]) + post;
    ProcsConcat(pre + [rs[i], rs[i + 1]], post);
    ProcsConcat(pre, [rs[i], rs[i + 1]]);
    assert [rs[i], rs[i + 1]] == [rs[i]] + [rs[i + 1]];
    ProcsConcat([rs[i]], [rs[i + 1]]);
    ProcsOne(rs[i]);
    ProcsOne(rs[i + 1]);
    assert Procs(rs) == Procs(pre) + Procs(post);
  }

  /** combine on regions at positions a and b: same kind, then same pid,
      then one must directly follow the other; the earlier absorbs the later. */
  function Combine(rs: seq<Region>, a: nat, b: nat): (r: Result<seq<Region>>)
    requires a < |rs| && b < |rs|
    ensures r.Ok? <==> rs[a].kind == rs[b].kind && rs[a].pid == rs[b].pid && (a + 1 == b || b + 1 == a)
    ensures r.Err? && rs[a].kind != rs[b].kind ==> r.error == EKind
    ensures r.Err? && rs[a].kind == rs[b].kind && rs[a].pid != rs[b].pid ==> r.error == EPid
    ensures r.Err? && rs[a].kind == rs[b].kind && rs[a].pid == rs[b].pid ==> r.error == EAdj
  {
    if rs[a].kind != rs[b].kind then Err(EKind)
    else if rs[a].pid != rs[b].pid then Err(EPid)
    else if b + 1 == a then Ok(Merge(rs, b))
    else if a + 1 == b then Ok(Merge(rs, a))
    else Err(EAdj)
  }

  /** The order of combine's arguments does not matter. */
  lemma CombineSymmetric(rs: seq<Region>, a: nat, b: nat)
    requires a < |rs| && b < |rs|
    ensures Combine(rs, a, b) == Combine(rs, b, a)
  {
  }
}
