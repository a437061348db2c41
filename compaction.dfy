/** compact_regs as a function on the ledger: every process region slides
    towards address 0, in order, and all free space becomes one trailing
    hole. Also the single step the source repeats: a hole trading places
    with the process region after it. */
module Compaction {
  import opened Regions

  /** Sum of the claimed sizes. */
  function ClaimSpace(cs: seq<Claim>): nat
  {
    if cs == [] then 0 else cs[0].size + ClaimSpace(cs[1..])
  }

  predicate DistinctPids(cs: seq<Claim>)
  {
    forall k, l :: 0 <= k < l < |cs| ==> cs[k].pid != cs[l].pid
  }

  /** The claims laid out as process regions one after another from `at`. */
  function Packed(cs: seq<Claim>, at: nat): seq<Region>
  {
    if cs == [] then [] else [Region(Proc, at, cs[0].size, cs[0].pid)] + Packed(cs[1..], at + cs[0].size)
  }

  /** The ledger compact_regs leaves behind. */
  function Compacted(rs: seq<Region>): seq<Region>
  {
    var cs := Procs(rs);
    var used := ClaimSpace(cs);
    Packed(cs, 0) + (if used < Sum(rs) then [Region(Hole, used, Sum(rs) - used, 0)] else [])
  }

  /** One bubbling step: the hole at k and the process region after it trade
      places; the process region takes the hole's start, the hole starts
      where the process region now ends. */
  function Bubble(rs: seq<Region>, k: nat): seq<Region>
    requires k + 1 < |rs|
  {
    var h, p := rs[k], rs[k + 1];
    rs[k := p.(start := h.start)][k + 1 := h.(start := h.start + p.size)]
  }

  /** The inner loop of compact_regs: the hole at k bubbled, one step at a
      time, past the regions k+1..m. */
  function BubbleRun(rs: seq<Region>, k: nat, m: nat): (out: seq<Region>)
    requires k <= m < |rs|
    ensures |out| == |rs|
    decreases m
  {
    if m == k then rs else Bubble(BubbleRun(rs, k, m - 1), m - 1)
  }

  // ---------------------------------------------------------------------
  // Claims

  /** Each claim comes from a process region of the ledger. */
  lemma {:induction false} ClaimFrom(rs: seq<Region>, k: nat) returns (j: nat)
    requires k < |Procs(rs)|
    ensures j < |rs| && rs[j].kind == Proc && Procs(rs)[k] == Claim(rs[j].pid, rs[j].size)
  {
    var head := if rs[0].kind == Proc then [Claim(rs[0].pid, rs[0].size)] else [];
    assert Procs(rs) == head + Procs(rs[1..]);
    if k < |head| {
      j := 0;
    } else {
      var j' := ClaimFrom(rs[1..], k - |head|);
      j := j' + 1;
    }
  }

  /** With a pid per region, the claims name distinct pids. */
  lemma {:induction false} UniqueClaims(rs: seq<Region>)
    requires PidsUnique(rs)
    ensures DistinctPids(Procs(rs))
  {
    if rs != [] {
      var tail := rs[1..];
      assert PidsUnique(tail) by {
        forall a, b | 0 <= a < b < |tail| && tail[a].kind == Proc && tail[b].kind == Proc
          ensures tail[a].pid != tail[b].pid
        {
          assert tail[a] == rs[a + 1] && tail[b] == rs[b + 1];
        }
      }
      UniqueClaims(tail);
      if rs[0].kind == Proc {
        var cs := Procs(rs);
        assert cs == [Claim(rs[0].pid, rs[0].size)] + Procs(tail);
        forall l | 0 < l < |cs| ensures cs[0].pid != cs[l].pid {
          var j := ClaimFrom(tail, l - 1);
          assert tail[j] == rs[j + 1];
        }
      } else {
        assert Procs(rs) == Procs(tail);
      }
    }
  }

  /** Claims of a tiling ledger are never empty. */
  lemma ClaimsNonEmpty(rs: seq<Region>, lo: nat, hi: nat)
    requires TilesFrom(rs, lo, hi)
    ensures forall k :: 0 <= k < |Procs(rs)| ==> Procs(rs)[k].size > 0
  {
    forall k | 0 <= k < |Procs(rs)| ensures Procs(rs)[k].size > 0 {
      var j := ClaimFrom(rs, k);
    }
  }

  /** Claims take no more room than the whole ledger. */
  lemma {:induction false} ClaimSpaceBound(rs: seq<Region>)
    ensures ClaimSpace(Procs(rs)) <= Sum(rs)
  {
    if rs != [] {
      ClaimSpaceBound(rs[1..]);
      var head := if rs[0].kind == Proc then [Claim(rs[0].pid, rs[0].size)] else [];
      ClaimSpaceConcat(head, Procs(rs[1..]));
    }
  }

  lemma {:induction false} ClaimSpaceConcat(a: seq<Claim>, b: seq<Claim>)
    ensures ClaimSpace(a + b) == ClaimSpace(a) + ClaimSpace(b)
  {
    if a == [] {
      assert a + b == b;
    } else {
      assert (a + b)[1..] == a[1..] + b;
      ClaimSpaceConcat(a[1..], b);
    }
  }

  // ---------------------------------------------------------------------
  // Packed claims

  lemma {:induction false} PackedAt(cs: seq<Claim>, at: nat, k: nat)
    requires k < |cs|
    ensures |Packed(cs, at)| == |cs|
    ensures Packed(cs, at)[k].kind == Proc && Packed(cs, at)[k].pid == cs[k].pid && Packed(cs, at)[k].size == cs[k].size
  {
    if k > 0 {
      PackedAt(cs[1..], at + cs[0].size, k - 1);
    } else {
      PackedLength(cs, at);
    }
  }

  lemma {:induction false} PackedLength(cs: seq<Claim>, at: nat)
    ensures |Packed(cs, at)| == |cs|
  {
    if cs != [] {
      PackedLength(cs[1..], at + cs[0].size);
    }
  }

  /** Packed claims tile [at, at + their space). */
  lemma {:induction false} PackedTiles(cs: seq<Claim>, at: nat)
    requires forall k :: 0 <= k < |cs| ==> cs[k].size > 0
    ensures TilesFrom(Packed(cs, at), at, at + ClaimSpace(cs))
  {
    if cs != [] {
      PackedTiles(cs[1..], at + cs[0].size);
      TilesJoin([Region(Proc, at, cs[0].size, cs[0].pid)], Packed(cs[1..], at + cs[0].size),
                at, at + cs[0].size, at + ClaimSpace(cs));
    }
  }

  /** Packing loses no claim. */
  lemma {:induction false} PackedProcs(cs: seq<Claim>, at: nat)
    ensures Procs(Packed(cs, at)) == cs
  {
    if cs != [] {
      var r := Region(Proc, at, cs[0].size, cs[0].pid);
      ProcsConcat([r], Packed(cs[1..], at + cs[0].size));
      ProcsOne(r);
      PackedProcs(cs[1..], at + cs[0].size);
    }
  }

  /** A run of process regions tiling from `at` is its claims, packed. */
  lemma {:induction false} PackedUnique(ps: seq<Region>, at: nat, hi: nat)
    requires TilesFrom(ps, at, hi)
    requires forall k :: 0 <= k < |ps| ==> ps[k].kind == Proc
    ensures ps == Packed(Procs(ps), at)
    ensures hi == at + ClaimSpace(Procs(ps))
  {
    if ps != [] {
      var tail := ps[1..];
      TilesSlice(ps, at, hi, 1, |ps|);
      PackedUnique(tail, End(ps[0]), hi);
      assert Procs(ps) == [Claim(ps[0].pid, ps[0].size)] + Procs(tail);
      assert Procs(ps)[1..] == Procs(tail);
    }
  }

  // ---------------------------------------------------------------------
  // What compaction leaves

  /** compact_regs keeps the ledger invariant and the total size. */
  lemma CompactedKeepsInv(rs: seq<Region>, total: nat)
    requires LedgerInv(rs, total)
    ensures LedgerInv(Compacted(rs), total)
  {
    CompactedTiles(rs, total);
    CompactedOwners(rs);
  }

  /** The compacted ledger tiles the same space. */
  lemma CompactedTiles(rs: seq<Region>, total: nat)
    requires TilesFrom(rs, 0, total)
    ensures TilesFrom(Compacted(rs), 0, total)
  {
    var cs := Procs(rs);
    var used := ClaimSpace(cs);
    TilesSum(rs, 0, total);
    ClaimSpaceBound(rs);
    ClaimsNonEmpty(rs, 0, total);
    PackedTiles(cs, 0);
    var tail := if used < total then [Region(Hole, used, total - used, 0)] else [];
    assert TilesFrom(tail, used, total);
    TilesJoin(Packed(cs, 0), tail, 0, used, total);
    assert Compacted(rs) == Packed(cs, 0) + tail;
  }

  /** In the compacted ledger the claims come first, each a process region
      of its own pid, and at most one unowned hole follows them. */
  lemma CompactedOwners(rs: seq<Region>)
    requires PidsUnique(rs)
    ensures HolesUnowned(Compacted(rs)) && PidsUnique(Compacted(rs)) && NoAdjacentHoles(Compacted(rs))
  {
    var cs := Procs(rs);
    var out := Compacted(rs);
    PackedLength(cs, 0);
    UniqueClaims(rs);
    forall k | 0 <= k < |cs| ensures out[k].kind == Proc && out[k].pid == cs[k].pid {
      PackedAt(cs, 0, k);
    }
    assert |out| <= |cs| + 1;
    assert forall k :: |cs| <= k < |out| ==> out[k].kind == Hole && out[k].pid == 0;
  }

  /** compact_regs keeps every claim, in order. */
  lemma CompactedKeepsProcs(rs: seq<Region>)
    ensures Procs(Compacted(rs)) == Procs(rs)
  {
    var cs := Procs(rs);
    var used := ClaimSpace(cs);
    var tail := if used < Sum(rs) then [Region(Hole, used, Sum(rs) - used, 0)] else [];
    ProcsConcat(Packed(cs, 0), tail);
    PackedProcs(cs, 0);
    if tail != [] {
      ProcsOne(tail[0]);
    }
  }

  /** After compact_regs only the last region can be a hole. */
  lemma CompactedHoleLast(rs: seq<Region>)
    ensures HoleAtMostLast(Compacted(rs))
  {
    var cs := Procs(rs);
    PackedLength(cs, 0);
    forall k | 0 <= k < |Compacted(rs)| - 1 ensures Compacted(rs)[k].kind == Proc {
      PackedAt(cs, 0, k);
    }
  }

  /** A second compact_regs changes nothing. */
  lemma CompactIdempotent(rs: seq<Region>, total: nat)
    requires LedgerInv(rs, total)
    ensures Compacted(Compacted(rs)) == Compacted(rs)
  {
    CompactedKeepsProcs(rs);
    CompactedKeepsInv(rs, total);
    TilesSum(rs, 0, total);
    TilesSum(Compacted(rs), 0, total);
  }

  /** Every region except possibly the last is a process region. */
  predicate HoleAtMostLast(xs: seq<Region>)
  {
    forall k :: 0 <= k < |xs| - 1 ==> xs[k].kind == Proc
  }

  /** The regions before position k are process regions, except possibly
      the last region of all. */
  predicate SettledBefore(xs: seq<Region>, k: nat)
  {
    forall j :: 0 <= j < k && j < |xs| - 1 ==> xs[j].kind == Proc
  }

  /** Moving a hole past the process region after it settles one more
      position. */
  lemma BubbleSettles(rs: seq<Region>, k: nat)
    requires k + 1 < |rs| && SettledBefore(rs, k) && rs[k + 1].kind == Proc
    ensures SettledBefore(Bubble(rs, k), k + 1)
  {
    var out := Bubble(rs, k);
    forall j | 0 <= j < k + 1 && j < |out| - 1
      ensures out[j].kind == Proc
    {
      if j < k {
        assert out[j] == rs[j];
      }
    }
  }

  lemma {:induction false} SumSnoc(xs: seq<Region>, x: Region)
    ensures Sum(xs + [x]) == Sum(xs) + x.size
  {
    if xs != [] {
      assert (xs + [x])[1..] == xs[1..] + [x];
      SumSnoc(xs[1..], x);
    }
  }

  /** What a run of bubbling steps leaves: the regions before k and after m
      are untouched; each region k+1..m moves down one place and starts
      where the hole started plus the sizes of the regions moved before it;
      the hole ends up at m, after all of them. */
  lemma {:induction false} BubbleRunShape(rs: seq<Region>, k: nat, m: nat)
    requires k <= m < |rs|
    ensures var out := BubbleRun(rs, k, m);
      && (forall j :: 0 <= j < |rs| && (j < k || m < j) ==> out[j] == rs[j])
      && (forall j :: k <= j < m ==> out[j] == rs[j + 1].(start := rs[k].start + Sum(rs[k + 1..j + 1])))
      && out[m] == rs[k].(start := rs[k].start + Sum(rs[k + 1..m + 1]))
    decreases m
  {
    if m > k {
      BubbleRunShape(rs, k, m - 1);
      SumSnoc(rs[k + 1..m], rs[m]);
      assert rs[k + 1..m + 1] == rs[k + 1..m] + [rs[m]];
    }
  }

  /** On a tiled ledger a run of regions ends where its first region ends
      plus the sizes of the rest. */
  lemma RunEnd(rs: seq<Region>, lo: nat, hi: nat, k: nat, j: nat)
    requires TilesFrom(rs, lo, hi) && k < j <= |rs|
    ensures End(rs[k]) + Sum(rs[k + 1..j]) == End(rs[j - 1])
  {
    var run := rs[k..j];
    TilesSlice(rs, lo, hi, k, j);
    TilesSum(run, rs[k].start, if j < |rs| then rs[j].start else hi);
    assert run[1..] == rs[k + 1..j];
    if j < |rs| {
      assert End(rs[j - 1]) == rs[j].start;
    } else {
      assert End(rs[|rs| - 1]) == hi;
    }
  }

  /** On a tiled ledger the bubbling run slides each overtaken region down by
      exactly the hole's size, and the hole ends where the last of them ended. */
  lemma BubbleRunSlides(rs: seq<Region>, lo: nat, hi: nat, k: nat, m: nat)
    requires TilesFrom(rs, lo, hi) && k <= m < |rs|
    ensures var out := BubbleRun(rs, k, m);
      && (forall j :: k <= j < m ==> out[j].start + rs[k].size == rs[j + 1].start)
      && out[m].start + rs[k].size == End(rs[m])
  {
    BubbleRunShape(rs, k, m);
    var out := BubbleRun(rs, k, m);
    forall j | k <= j < m
      ensures out[j].start + rs[k].size == rs[j + 1].start
    {
      RunEnd(rs, lo, hi, k, j + 1);
      assert End(rs[j]) == rs[j + 1].start;
    }
    RunEnd(rs, lo, hi, k, m + 1);
  }

  /** A ledger that tiles the same space, holds the same claims in the same
      order and has no hole except possibly the last region is the compacted
      ledger: this is what the bubbling loop establishes. */
  lemma CompactedUnique(rs: seq<Region>, xs: seq<Region>, total: nat)
    requires TilesFrom(rs, 0, total) && TilesFrom(xs, 0, total) && HolesUnowned(xs)
    requires Procs(xs) == Procs(rs) && HoleAtMostLast(xs)
    ensures xs == Compacted(rs)
  {
    TilesSum(rs, 0, total);
    var cs := Procs(rs);
    if xs == [] {
      assert total == 0;
      assert rs == [];
    } else if xs[|xs| - 1].kind == Proc {
      PackedUnique(xs, 0, total);
      assert ClaimSpace(cs) == Sum(rs);
      assert Compacted(rs) == Packed(cs, 0) + [];
    } else {
      HoleLastUnique(rs, xs, total);
    }
  }

  /** CompactedUnique when the last region is a hole: the regions before
      it are the packed claims and it covers the rest of the space. */
  lemma HoleLastUnique(rs: seq<Region>, xs: seq<Region>, total: nat)
    requires TilesFrom(rs, 0, total) && TilesFrom(xs, 0, total) && HolesUnowned(xs)
    requires Procs(xs) == Procs(rs) && HoleAtMostLast(xs)
    requires xs != [] && xs[|xs| - 1].kind == Hole
    ensures xs == Compacted(rs)
  {
    TilesSum(rs, 0, total);
    var cs := Procs(rs);
    var ps, h := xs[..|xs| - 1], xs[|xs| - 1];
    assert xs == ps + [h];
    TilesSlice(xs, 0, total, 0, |xs| - 1);
    PackedUnique(ps, 0, h.start);
    ProcsConcat(ps, [h]);
    ProcsOne(h);
    assert Procs(ps) == cs;
    assert h == Region(Hole, ClaimSpace(cs), Sum(rs) - ClaimSpace(cs), 0);
    assert Compacted(rs) == Packed(cs, 0) + [h];
  }

  /** One bubbling step keeps the tiling. */
  lemma BubbleTiles(rs: seq<Region>, lo: nat, hi: nat, k: nat)
    requires TilesFrom(rs, lo, hi)
    requires k + 1 < |rs| && rs[k].kind == Hole && rs[k + 1].kind == Proc
    ensures TilesFrom(Bubble(rs, k), lo, hi)
  {
    var out := Bubble(rs, k);
    assert End(rs[k]) == rs[k + 1].start;
    forall j | 0 <= j < |out| - 1
      ensures End(out[j]) == out[j + 1].start
    {
      assert End(rs[j]) == rs[j + 1].start;
    }
  }

  /** One bubbling step keeps the claims, in order, and the unowned holes. */
  lemma BubbleProcs(rs: seq<Region>, k: nat)
    requires k + 1 < |rs| && rs[k].kind == Hole && rs[k + 1].kind == Proc
    ensures Procs(Bubble(rs, k)) == Procs(rs)
    ensures HolesUnowned(rs) ==> HolesUnowned(Bubble(rs, k))
  {
    var h, p := rs[k], rs[k + 1];
    var pre, post := rs[..k], rs[k + 2..];
    var swapped := [p.(start := h.start), h.(start := h.start + p.size)];
    assert rs == pre + [h, p] + post;
    assert Bubble(rs, k) == pre + swapped + post;
    ProcsPair(h, p);
    ProcsPair(swapped[0], swapped[1]);
    ProcsMiddle(pre, [h, p], swapped, post);
  }

  /** Replacing a middle piece by one with the same claims keeps the claims. */
  lemma ProcsMiddle(pre: seq<Region>, x: seq<Region>, y: seq<Region>, post: seq<Region>)
    requires Procs(x) == Procs(y)
    ensures Procs(pre + x + post) == Procs(pre + y + post)
  {
    ProcsConcat(pre + x, post);
    ProcsConcat(pre, x);
    ProcsConcat(pre + y, post);
    ProcsConcat(pre, y);
  }

  lemma ProcsPair(a: Region, b: Region)
    ensures Procs([a, b]) == Procs([a]) + Procs([b])
  {
    assert [a, b] == [a] + [b];
    ProcsConcat([a], [b]);
  }
}
