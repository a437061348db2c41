/** allocator.c's state and routines: the region list linked from the
    head `*mem`, the process table beside it, and every routine as a method
    that changes them in place, proved against the ledger functions. */
module Allocator {
  import opened Regions
  import opened Placement
  import SplitMerge
  import Engine
  import Compaction
  import opened Report
  import opened Arena

  class Memory {
    /** Region nodes by handle (the arena behind the region pointers). */
    var nodes: map<nat, Region>
    /** The chain from the head `*mem` through `next`; empty while `*mem` is NULL. */
    var order: seq<nat>
    /** proc_table: pid to the handle of its region. */
    var table: map<nat, nat>
    /** The next handle the arena gives out. */
    var nextHandle: nat
    /** The size of the address space (fixed by mem_init). */
    ghost var total: nat

    ghost predicate Valid()
      reads this
    {
      && Linked(nodes, order, nextHandle)
      && Coherent(nodes, order, table)
      && LedgerInv(View(nodes, order), total)
    }

    /** The ledger, in list order. */
    function Ledger(): seq<Region>
      reads this
      requires Linked(nodes, order, nextHandle)
    {
      View(nodes, order)
    }

    /** No list and an empty process table. */
    constructor ()
      ensures Valid() && order == [] && table == map[] && total == 0
    {
      nodes := map[];
      order := [];
      table := map[];
      nextHandle := 0;
      total := 0;
    }

    /** A node the arena has never handed out (malloc). */
    method NewNode() returns (h: nat)
      requires Linked(nodes, order, nextHandle)
      modifies this
      ensures h == old(nextHandle) && h !in nodes && nextHandle == h + 1
      ensures nodes == old(nodes) && order == old(order) && table == old(table) && total == old(total)
      ensures Linked(nodes, order, nextHandle)
    {
      h := nextHandle;
      nextHandle := nextHandle + 1;
    }

    /** mem_init: the whole space becomes one unowned hole at address 0. */
    method MemInit(size: nat)
      requires Valid() && order == [] && size > 0
      modifies this
      ensures Valid() && total == size
      ensures Ledger() == [Region(Hole, 0, size, 0)]
      ensures table == old(table)
    {
      var h := NewNode();
      nodes := nodes[h := Region(Hole, 0, size, 0)];
      order := [h];
      total := size;
      assert View(nodes, order)[0] == Region(Hole, 0, size, 0);
    }

    /** lookup: the process table's entry for pid, if any. */
    function Lookup(pid: nat): (r: Option<nat>)
      reads this
      requires Valid()
      ensures r.Some? ==> r.value in nodes && Owns(nodes[r.value], pid)
      ensures r.None? <==> FindPid(Ledger(), pid).None?
      ensures r.Some? ==> r.value == order[FindPid(Ledger(), pid).value]
    {
      TableFinds(nodes, order, nextHandle, table, total, pid);
      if pid in table then Some(table[pid]) else None
    }

    /** install: point the pid's entry at the region, replacing any entry
        the pid already had. */
    method Install(pid: nat, h: nat)
      modifies this
      ensures table == old(table)[pid := h]
      ensures nodes == old(nodes) && order == old(order) && nextHandle == old(nextHandle) && total == old(total)
    {
      table := table[pid := h];
    }

    /** undef: drop the pid's entry; E_NOTDEF when it has none. */
    method Undef(pid: nat) returns (r: Result<()>)
      modifies this
      ensures r.Err? <==> pid !in old(table)
      ensures r.Err? ==> r.error == ENotDef
      ensures table == old(table) - {pid}
      ensures nodes == old(nodes) && order == old(order) && nextHandle == old(nextHandle) && total == old(total)
    {
      if pid !in table {
        return Err(ENotDef);
      }
      table := table - {pid};
      return Ok(());
    }

    /** find_first_fit_hole: walks the list from the head. */
    method FindFirstFitHole(size: nat) returns (hole: Option<nat>)
      requires Linked(nodes, order, nextHandle)
      ensures hole == HandleOf(order, FirstFit(Ledger(), size))
    {
      var k := 0;
      while k < |order|
        invariant k <= |order|
        invariant forall j :: 0 <= j < k ==> !Fits(Ledger()[j], size)
      {
        var reg := nodes[order[k]];
        if reg.kind == Hole && reg.size >= size {
          assert Fits(Ledger()[k], size);
          return Some(order[k]);
        }
        k := k + 1;
      }
      return None;
    }

    /** find_best_fit_hole: keeps the smallest fitting hole seen so far,
        replacing it only by a strictly smaller one. */
    method FindBestFitHole(size: nat) returns (hole: Option<nat>)
      requires Linked(nodes, order, nextHandle)
      ensures hole == HandleOf(order, BestFit(Ledger(), size))
    {
      ghost var rs := Ledger();
      ghost var chosen: Option<nat> := None;
      hole := None;
      var k := 0;
      while k < |order|
        invariant k <= |order|
        invariant chosen == BestFitIn(rs, size, k) && hole == HandleOf(order, chosen)
      {
        var reg := nodes[order[k]];
        assert reg == rs[k];
        assert hole.Some? ==> nodes[hole.value] == rs[chosen.value];
        if reg.kind == Hole && reg.size >= size && (hole.None? || reg.size < nodes[hole.value].size) {
          hole := Some(order[k]);
          chosen := Some(k);
        }
        k := k + 1;
      }
    }

    /** find_worst_fit_hole: keeps the largest fitting hole seen so far,
        replacing it only by a strictly larger one. */
    method FindWorstFitHole(size: nat) returns (hole: Option<nat>)
      requires Linked(nodes, order, nextHandle)
      ensures hole == HandleOf(order, WorstFit(Ledger(), size))
    {
      ghost var rs := Ledger();
      ghost var chosen: Option<nat> := None;
      hole := None;
      var k := 0;
      while k < |order|
        invariant k <= |order|
        invariant chosen == WorstFitIn(rs, size, k) && hole == HandleOf(order, chosen)
      {
        var reg := nodes[order[k]];
        assert reg == rs[k];
        assert hole.Some? ==> nodes[hole.value] == rs[chosen.value];
        if reg.kind == Hole && reg.size >= size && (hole.None? || reg.size > nodes[hole.value].size) {
          hole := Some(order[k]);
          chosen := Some(k);
        }
        k := k + 1;
      }
    }

    /** allocate: carve a process region of `size` for `pid` off the front
        of the hole, into the fresh node linked in before it; the hole
        moves up and shrinks, and leaves the list when nothing of it is
        left. */
    method Allocate(node: nat, hole: Option<nat>, pid: nat, size: nat) returns (r: Result<()>)
      requires Linked(nodes, order, nextHandle) && node !in nodes && node < nextHandle
      requires hole.Some? ==> hole.value in order
      modifies this
      ensures Linked(nodes, order, nextHandle)
      ensures table == old(table) && nextHandle == old(nextHandle) && total == old(total)
      ensures hole.None? ==> r == Err(ENullReg)
      ensures hole.Some? && size == 0 ==> r == Err(EEmpty)
      ensures hole.Some? && size > 0 && old(nodes)[hole.value].kind != Hole ==> r == Err(ENotHole)
      ensures hole.Some? && size > 0 && old(nodes)[hole.value].kind == Hole && old(nodes)[hole.value].size < size ==> r == Err(EHoleTooSmall)
      ensures r.Ok? <==> hole.Some? && size > 0 && Fits(old(nodes)[hole.value], size)
      ensures r.Err? ==> nodes == old(nodes) && order == old(order)
      ensures r.Ok? ==>
        var i := IndexOf(old(order), hole.value);
        && Ledger() == SplitMerge.Carve(old(Ledger()), i, pid, size)
        && nodes == Carved(old(nodes), old(order), i, node, pid, size)
        && order == Spliced(old(order), i, node, old(nodes)[hole.value].size != size)
    {
      if hole.None? {
        return Err(ENullReg);
      }
      if size == 0 {
        return Err(EEmpty);
      }
      var h := hole.value;
      if nodes[h].kind != Hole {
        return Err(ENotHole);
      }
      if nodes[h].size < size {
        return Err(EHoleTooSmall);
      }
      var i := IndexOf(order, h);
      CarvedView(nodes, order, nextHandle, i, node, pid, size);
      var keep := nodes[h].size != size;
      nodes := Carved(nodes, order, i, node, pid, size);
      order := Spliced(order, i, node, keep);
      return Ok(());
    }

    /** combine: two regions of the same kind and pid, one directly after
        the other, become one: the earlier grows by the later's size and
        the later leaves the list. */
    method Combine(a: nat, b: nat) returns (r: Result<()>)
      requires Linked(nodes, order, nextHandle) && a in order && b in order
      modifies this
      ensures Linked(nodes, order, nextHandle)
      ensures table == old(table) && nextHandle == old(nextHandle) && total == old(total)
      ensures
        var c := SplitMerge.Combine(old(Ledger()), IndexOf(old(order), a), IndexOf(old(order), b));
        && (c.Err? ==> r == Err(c.error) && nodes == old(nodes) && order == old(order))
        && (c.Ok? ==> r == Ok(()) && Ledger() == c.value)
      ensures r.Ok? ==>
        var lo := Earlier(old(order), a, b);
        lo + 1 < |old(order)| && order == Unlink(old(order), lo + 1) && nodes == Absorbed(old(nodes), old(order), lo)
    {
      ghost var rs := Ledger();
      ghost var c := SplitMerge.Combine(rs, IndexOf(order, a), IndexOf(order, b));
      assert rs[IndexOf(order, a)] == nodes[a] && rs[IndexOf(order, b)] == nodes[b];
      if nodes[a].kind != nodes[b].kind {
        return Err(EKind);
      }
      if nodes[a].pid != nodes[b].pid {
        return Err(EPid);
      }
      var i, j := IndexOf(order, a), IndexOf(order, b);
      if j + 1 == i {
        i, j := j, i;
      } else if i + 1 != j {
        return Err(EAdj);
      }
      AbsorbedView(nodes, order, nextHandle, i);
      nodes := Absorbed(nodes, order, i);
      order := Unlink(order, i + 1);
      return Ok(());
    }

    /** request_reg: refuse an empty list, then a zero size; a pid with an
        entry may only grow into the hole right after its region (carve
        there, then combine the piece into the region); a new pid gets a
        region carved from the hole the flag's strategy finds, and an
        entry pointing at it. */
    method RequestReg(pid: nat, size: nat, flag: char) returns (r: Result<()>)
      requires Valid()
      modifies this
      ensures Valid() && total == old(total)
      ensures
        var req := Engine.Request(old(Ledger()), pid, size, flag);
        && (req.Err? ==> r == Err(req.error) && Ledger() == old(Ledger()) && table == old(table))
        && (req.Ok? ==> r == Ok(()) && Ledger() == req.value)
      ensures r.Ok? ==> Lookup(pid).Some?
    {
      if |order| == 0 {
        return Err(ENullReg);
      }
      if size == 0 {
        return Err(EEmpty);
      }
      var existing := Lookup(pid);
      if existing.Some? {
        r := RequestGrow(pid, size, flag, existing.value);
      } else {
        r := RequestFresh(pid, size, flag);
      }
    }

    /** request_reg for a pid with an entry: only the hole right after its
        region can take the request, whatever the flag. */
    method RequestGrow(pid: nat, size: nat, flag: char, reg: nat) returns (r: Result<()>)
      requires Valid() && |order| > 0 && size > 0 && Lookup(pid) == Some(reg)
      modifies this
      ensures Valid() && total == old(total)
      ensures
        var req := Engine.Request(old(Ledger()), pid, size, flag);
        && (req.Err? ==> r == Err(req.error) && Ledger() == old(Ledger()) && table == old(table))
        && (req.Ok? ==> r == Ok(()) && Ledger() == req.value)
      ensures r.Ok? ==> Lookup(pid).Some?
    {
      ghost var rs := Ledger();
      var i := IndexOf(order, reg);
      IndexOfAt(order, FindPid(rs, pid).value);
      assert FindPid(rs, pid) == Some(i);
      if !(i + 1 < |order| && nodes[order[i + 1]].kind == Hole && nodes[order[i + 1]].size >= size) {
        return Err(EMem);
      }
      assert Engine.Request(rs, pid, size, flag) == Ok(Engine.Grow(rs, i, pid, size));
      var node := NewNode();
      r := GrowInPlace(reg, i, node, pid, size);
      IndexOfAt(order, i);
      Engine.RequestKeepsInv(rs, total, pid, size, flag);
    }

    /** request_reg for a pid without an entry: the flag's strategy picks
        the hole, and the new region gets an entry. */
    method RequestFresh(pid: nat, size: nat, flag: char) returns (r: Result<()>)
      requires Valid() && |order| > 0 && size > 0 && Lookup(pid).None?
      modifies this
      ensures Valid() && total == old(total)
      ensures
        var req := Engine.Request(old(Ledger()), pid, size, flag);
        && (req.Err? ==> r == Err(req.error) && Ledger() == old(Ledger()) && table == old(table))
        && (req.Ok? ==> r == Ok(()) && Ledger() == req.value)
      ensures r.Ok? ==> Lookup(pid).Some?
    {
      ghost var rs := Ledger();
      var choice := SelectHole(size, flag);
      if choice.Err? {
        return Err(choice.error);
      }
      var hole := choice.value;
      if hole.None? {
        return Err(EMem);
      }
      var h := IndexOf(order, hole.value);
      IndexOfAt(order, Select(rs, size, flag).value.value);
      assert Engine.Request(rs, pid, size, flag) == Ok(SplitMerge.Carve(rs, h, pid, size));
      var node := NewNode();
      r := CarveFresh(h, node, pid, size);
      Engine.RequestKeepsInv(rs, total, pid, size, flag);
    }

    /** The switch on the strategy flag in request_reg: 'F', 'B' or 'W'
        runs that finder, anything else is E_FLAG. */
    method SelectHole(size: nat, flag: char) returns (r: Result<Option<nat>>)
      requires Linked(nodes, order, nextHandle)
      ensures r.Err? <==> flag !in {'F', 'B', 'W'}
      ensures r.Err? ==> r.error == EFlag
      ensures r.Ok? ==> Select(Ledger(), size, flag).Ok? && r.value == HandleOf(order, Select(Ledger(), size, flag).value)
    {
      match flag {
        case 'F' => var hole := FindFirstFitHole(size); return Ok(hole);
        case 'B' => var hole := FindBestFitHole(size); return Ok(hole);
        case 'W' => var hole := FindWorstFitHole(size); return Ok(hole);
        case _ => return Err(EFlag);
      }
    }

    /** The fresh half of request_reg: pid has no entry, and the hole at
        position h takes `size`. */
    method CarveFresh(h: nat, node: nat, pid: nat, size: nat) returns (r: Result<()>)
      requires Valid() && size > 0 && pid !in table
      requires h < |order| && Fits(nodes[order[h]], size)
      requires node !in nodes && node < nextHandle
      modifies this
      ensures Valid() && total == old(total) && table == old(table)[pid := node]
      ensures r == Ok(()) && Ledger() == SplitMerge.Carve(old(Ledger()), h, pid, size)
    {
      ghost var rs := Ledger();
      TableFinds(nodes, order, nextHandle, table, total, pid);
      IndexOfAt(order, h);
      CarvedOwners(nodes, order, nextHandle, h, node, pid, size);
      var ret := Allocate(node, Some(order[h]), pid, size);
      assert ret.Ok?;
      ghost var n1, o1 := nodes, order;
      Install(pid, node);
      CoherentInstall(old(nodes), old(order), n1, o1, old(table), node, pid);
      Engine.CarveKeepsInv(rs, total, h, pid, size);
      return Ok(());
    }

    /** The growing half of request_reg: `existing` (at position i) owns
        pid and is followed by a hole of at least `size`. */
    method GrowInPlace(existing: nat, i: nat, node: nat, pid: nat, size: nat) returns (r: Result<()>)
      requires Valid() && size > 0
      requires i + 1 < |order| && order[i] == existing && Owns(nodes[existing], pid)
      requires Fits(nodes[order[i + 1]], size)
      requires node !in nodes && node < nextHandle
      modifies this
      ensures Valid() && total == old(total) && table == old(table)
      ensures r == Ok(()) && Ledger() == Engine.Grow(old(Ledger()), i, pid, size)
    {
      ghost var rs := Ledger();
      IndexOfAt(order, i + 1);
      var ret := Allocate(node, Some(order[i + 1]), pid, size);
      assert ret.Ok?;
      ghost var carved := Ledger();
      ghost var n1, o1 := nodes, order;
      assert o1[i] == existing && o1[i + 1] == node;
      IndexOfAt(o1, i);
      IndexOfAt(o1, i + 1);
      r := Combine(existing, node);
      assert r.Ok?;
      CarvedOwners(old(nodes), old(order), old(nextHandle), i + 1, node, pid, size);
      AbsorbedOwners(n1, o1, nextHandle, i);
      OwnersAddRemove(old(nodes), old(order), node, pid);
      CoherentSameOwners(old(nodes), old(order), nodes, order, table);
      FindPidUnique(rs, pid, i);
      Engine.GrowKeepsInv(rs, total, i, pid, size);
    }

    /** release_reg: E_NOTDEF for a pid without an entry; otherwise the
        entry goes, the region becomes an unowned hole, takes in a hole
        that follows it and is then taken in by a hole that precedes it. */
    method ReleaseReg(pid: nat) returns (r: Result<()>)
      requires Valid()
      modifies this
      ensures Valid() && total == old(total)
      ensures
        var rel := Engine.Release(old(Ledger()), pid);
        && (rel.Err? ==> r == Err(rel.error) && Ledger() == old(Ledger()) && table == old(table))
        && (rel.Ok? ==> r == Ok(()) && Ledger() == rel.value && table == old(table) - {pid})
    {
      var existing := Lookup(pid);
      if existing.None? {
        return Err(ENotDef);
      }
      var reg := existing.value;
      ghost var rs := Ledger();
      ghost var i0 := FindPid(rs, pid).value;
      IndexOfAt(order, i0);
      r := Undef(pid);
      assert r.Ok?;
      r := FreeRegion(reg);
      ReleaseCoherent(old(nodes), old(order), nextHandle, old(table), total, pid, nodes, order);
    }

    /** release_reg once the table entry is gone: the region becomes an
        unowned hole and is merged with the holes beside it. */
    method FreeRegion(reg: nat) returns (r: Result<()>)
      requires Linked(nodes, order, nextHandle) && reg in order && HolesUnowned(Ledger())
      modifies this
      ensures Linked(nodes, order, nextHandle)
      ensures table == old(table) && nextHandle == old(nextHandle) && total == old(total)
      ensures Owners(nodes, order) == Owners(old(nodes), old(order)) - {reg}
      ensures r == Ok(())
      ensures Ledger() == Engine.ReleaseAt(old(Ledger()), IndexOf(old(order), reg))
    {
      ghost var rs := Ledger();
      var i := IndexOf(order, reg);
      assert rs[i] == nodes[reg];
      ghost var freed := rs[i := Region(Hole, rs[i].start, rs[i].size, 0)];
      assert HolesUnowned(freed);
      FreedView(nodes, order, nextHandle, i);
      FreedOwners(nodes, order, reg);
      nodes := Freed(nodes, reg);
      assert Ledger() == freed && IndexOf(order, reg) == i;
      r := MergeNeighbours(reg);
    }

    /** compact_regs: every hole in turn bubbles towards the tail past the
        process regions after it, sliding each of them down, and takes in
        the hole it meets there; the ledger ends up as Compacted. */
    method CompactRegs() returns (r: Result<()>)
      requires Valid()
      modifies this
      ensures Valid() && total == old(total) && table == old(table)
      ensures r == Ok(()) && Ledger() == Compaction.Compacted(old(Ledger()))
    {
      ghost var rs0 := Ledger();
      ghost var owners := Owners(nodes, order);
      var k := 0;
      while k < |order|
        invariant Compacting(rs0, owners, k)
        invariant table == old(table) && nextHandle == old(nextHandle) && total == old(total)
        decreases |order| - k
      {
        var reg := order[k];
        if nodes[reg].kind != Hole {
          k := k + 1;
        } else {
          k := BubbleUp(rs0, owners, k);
          if k + 1 < |order| {
            ghost var rs := Ledger();
            assert rs[k] == nodes[order[k]] && rs[k + 1] == nodes[order[k + 1]];
            r := AbsorbNextHole(k);
            SplitMerge.MergeTiles(rs, 0, total, k);
            SplitMerge.MergeHoles(rs, k);
            SplitMerge.MergeShape(rs, k);
          } else {
            k := k + 1;
          }
        }
      }
      r := Ok(());
      Compaction.CompactedUnique(rs0, Ledger(), total);
      Compaction.CompactedKeepsInv(rs0, total);
      CoherentSameOwners(old(nodes), old(order), nodes, order, table);
    }

    /** What the compacting loop keeps: the list still holds the same
        owners, tiles the space and holds the same claims, and the regions
        before position k are settled. */
    ghost predicate Compacting(rs0: seq<Region>, owners: map<nat, nat>, k: nat)
      reads this
    {
      && Linked(nodes, order, nextHandle) && k <= |order|
      && Owners(nodes, order) == owners
      && TilesFrom(Ledger(), 0, total) && HolesUnowned(Ledger())
      && Procs(Ledger()) == Procs(rs0)
      && Compaction.SettledBefore(Ledger(), k)
    }

    /** The inner loop of compact_regs: the hole at k bubbles past the
        process regions after it, and stops before the next hole or at the
        tail. */
    method BubbleUp(ghost rs0: seq<Region>, ghost owners: map<nat, nat>, k: nat) returns (k': nat)
      requires Compacting(rs0, owners, k) && k < |order| && nodes[order[k]].kind == Hole
      modifies this
      ensures Compacting(rs0, owners, k') && k <= k' < |order| == |old(order)|
      ensures order[k'] == old(order)[k] && nodes[order[k']].kind == Hole
      ensures k' + 1 < |order| ==> nodes[order[k' + 1]].kind == Hole
      ensures table == old(table) && nextHandle == old(nextHandle) && total == old(total)
      ensures Ledger() == Compaction.BubbleRun(old(Ledger()), k, k')
      ensures forall j :: k < j <= k' ==> old(Ledger())[j].kind == Proc
      ensures k' + 1 < |order| ==> old(Ledger())[k' + 1].kind == Hole
    {
      ghost var rs := Ledger();
      k' := k;
      var reg := order[k];
      while k' + 1 < |order| && nodes[order[k' + 1]].kind == Proc
        invariant Compacting(rs0, owners, k') && k <= k' < |order| == |old(order)| == |rs|
        invariant order[k'] == reg && nodes[reg].kind == Hole
        invariant table == old(table) && nextHandle == old(nextHandle) && total == old(total)
        invariant Ledger() == Compaction.BubbleRun(rs, k, k')
        invariant forall j :: k < j <= k' ==> rs[j].kind == Proc
        decreases |order| - k'
      {
        ghost var before := Ledger();
        assert before[k' + 1] == nodes[order[k' + 1]];
        Compaction.BubbleRunShape(rs, k, k');
        assert before[k' + 1] == rs[k' + 1];
        Compaction.BubbleSettles(before, k');
        BubbleStep(k');
        k' := k' + 1;
      }
      if k' + 1 < |order| {
        Compaction.BubbleRunShape(rs, k, k');
        assert Ledger()[k' + 1] == nodes[order[k' + 1]] == rs[k' + 1];
      }
    }

    /** One step of the bubbling loop: the process region after the hole at
        k takes the hole's start, the hole moves up past it, and the two
        nodes trade places in the list. */
    method BubbleStep(k: nat)
      requires Linked(nodes, order, nextHandle) && k + 1 < |order|
      requires nodes[order[k]].kind == Hole && nodes[order[k + 1]].kind == Proc
      modifies this
      ensures Linked(nodes, order, nextHandle)
      ensures table == old(table) && nextHandle == old(nextHandle) && total == old(total)
      ensures order == Swapped(old(order), k) && nodes == Slid(old(nodes), old(order), k)
      ensures Ledger() == Compaction.Bubble(old(Ledger()), k)
      ensures Owners(nodes, order) == Owners(old(nodes), old(order))
      ensures forall lo, hi :: TilesFrom(old(Ledger()), lo, hi) ==> TilesFrom(Ledger(), lo, hi)
      ensures Procs(Ledger()) == Procs(old(Ledger()))
      ensures HolesUnowned(old(Ledger())) ==> HolesUnowned(Ledger())
    {
      ghost var rs := Ledger();
      SlidView(nodes, order, nextHandle, k);
      SlidOwners(nodes, order, nextHandle, k);
      forall lo, hi | TilesFrom(rs, lo, hi) ensures TilesFrom(Compaction.Bubble(rs, k), lo, hi) {
        Compaction.BubbleTiles(rs, lo, hi, k);
      }
      Compaction.BubbleProcs(rs, k);
      nodes := Slid(nodes, order, k);
      order := Swapped(order, k);
    }

    /** The merging half of release_reg: the hole `reg` takes in a hole
        that follows it, then a hole that precedes it takes it in. */
    method MergeNeighbours(reg: nat) returns (r: Result<()>)
      requires Linked(nodes, order, nextHandle) && reg in order && HolesUnowned(Ledger())
      requires nodes[reg].kind == Hole
      modifies this
      ensures Linked(nodes, order, nextHandle)
      ensures table == old(table) && nextHandle == old(nextHandle) && total == old(total)
      ensures Owners(nodes, order) == Owners(old(nodes), old(order))
      ensures r == Ok(())
      ensures
        var i, f := IndexOf(old(order), reg), old(Ledger());
        var m := if i + 1 < |f| && f[i + 1].kind == Hole then SplitMerge.Merge(f, i) else f;
        Ledger() == if 0 < i && m[i - 1].kind == Hole then SplitMerge.Merge(m, i - 1) else m
    {
      r := Ok(());
      ghost var f := Ledger();
      var i := IndexOf(order, reg);
      IndexOfAt(order, i);
      assert nodes[order[i]] == f[i];
      ghost var m := if i + 1 < |f| && f[i + 1].kind == Hole then SplitMerge.Merge(f, i) else f;
      if i + 1 < |order| && nodes[order[i + 1]].kind == Hole {
        assert nodes[order[i + 1]] == f[i + 1];
        r := AbsorbNextHole(i);
        IndexOfAt(order, i);
        SplitMerge.MergeHoles(f, i);
      } else {
        assert i + 1 < |f| ==> f[i + 1] == nodes[order[i + 1]];
      }
      assert Ledger() == m && |m| == |order|;
      assert order[i] == reg;
      if i > 0 && nodes[order[i - 1]].kind == Hole {
        assert nodes[order[i - 1]] == m[i - 1];
        r := AbsorbNextHole(i - 1);
        assert Ledger() == SplitMerge.Merge(m, i - 1);
      } else {
        assert i > 0 ==> m[i - 1] == nodes[order[i - 1]];
      }
    }

    /** combine on two neighbouring unowned holes, as release_reg and
        compact_regs call it: it cannot fail, and the list loses the later
        node and no owner. */
    method AbsorbNextHole(i: nat) returns (r: Result<()>)
      requires Linked(nodes, order, nextHandle) && i + 1 < |order|
      requires nodes[order[i]].kind == Hole && nodes[order[i + 1]].kind == Hole
      requires nodes[order[i]].pid == 0 && nodes[order[i + 1]].pid == 0
      modifies this
      ensures Linked(nodes, order, nextHandle)
      ensures table == old(table) && nextHandle == old(nextHandle) && total == old(total)
      ensures r == Ok(()) && Ledger() == SplitMerge.Merge(old(Ledger()), i)
      ensures order == Unlink(old(order), i + 1)
      ensures Owners(nodes, order) == Owners(old(nodes), old(order))
    {
      ghost var rs := Ledger();
      IndexOfAt(order, i);
      IndexOfAt(order, i + 1);
      assert rs[i] == nodes[order[i]] && rs[i + 1] == nodes[order[i + 1]];
      assert SplitMerge.Combine(rs, i, i + 1) == Ok(SplitMerge.Merge(rs, i));
      assert Earlier(order, order[i], order[i + 1]) == i;
      AbsorbedOwners(nodes, order, nextHandle, i);
      ghost var gone := order[i + 1];
      assert gone !in Owners(nodes, order);
      r := Combine(order[i], order[i + 1]);
    }

    /** stat: one (first, last, label) line per region, from the head. */
    method Stat() returns (lines: seq<Line>)
      requires Linked(nodes, order, nextHandle)
      ensures lines == ReportOf(Ledger())
    {
      lines := [];
      var k := 0;
      while k < |order|
        invariant k <= |order|
        invariant lines == ReportOf(Ledger()[..k])
      {
        var reg := nodes[order[k]];
        var tag := if reg.kind == Proc then Process(reg.pid) else Unused;
        lines := lines + [Line(reg.start, reg.start + reg.size - 1, tag)];
        k := k + 1;
      }
      assert Ledger()[..k] == Ledger();
    }
  }

  /** The state release_reg leaves behind is valid: the ledger is the
      released one and the table has lost exactly the pid's entry. */
  lemma ReleaseCoherent(n0: map<nat, Region>, o0: seq<nat>, next: nat, t0: map<nat, nat>, total: nat, pid: nat,
                        n1: map<nat, Region>, o1: seq<nat>)
    requires Linked(n0, o0, next) && Coherent(n0, o0, t0) && LedgerInv(View(n0, o0), total) && pid in t0
    requires Linked(n1, o1, next) && Owners(n1, o1) == Owners(n0, o0) - {t0[pid]}
    requires FindPid(View(n0, o0), pid).Some?
    requires View(n1, o1) == Engine.ReleaseAt(View(n0, o0), IndexOf(o0, t0[pid]))
    ensures Coherent(n1, o1, t0 - {pid})
    ensures Engine.Release(View(n0, o0), pid) == Ok(View(n1, o1))
    ensures LedgerInv(View(n1, o1), total)
  {
    var rs := View(n0, o0);
    TableFinds(n0, o0, next, t0, total, pid);
    IndexOfAt(o0, FindPid(rs, pid).value);
    Engine.ReleaseKeepsInv(rs, total, pid);
    CoherentRemove(n0, o0, n1, o1, t0, pid);
  }
}
