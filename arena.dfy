/** The region list as the C program links it, in value form: an arena of
    nodes by handle (the region pointers), the chain of handles from the
    head (the prev/next links), and the process table's relation to them.
    Each list surgery of allocator.c is a function here, with a lemma
    saying which ledger it spells out. */
module Arena {
  import opened Regions
  import Placement
  import SplitMerge
  import Compaction

  /** Where a handle sits in the chain. */
  function IndexOf(s: seq<nat>, x: nat): (i: nat)
    requires x in s
    ensures i < |s| && s[i] == x
    ensures forall j :: 0 <= j < i ==> s[j] != x
  {
    if s[0] == x then 0 else 1 + IndexOf(s[1..], x)
  }

  predicate Distinct(s: seq<nat>)
  {
    forall i, j :: 0 <= i < j < |s| ==> s[i] != s[j]
  }

  /** The arena is consistent with the chain: every handle in the chain
      names a node, no handle appears twice, and `next` is above every
      handle handed out so far. */
  predicate Linked(nodes: map<nat, Region>, order: seq<nat>, next: nat)
  {
    && (forall h :: h in nodes ==> h < next)
    && (forall i :: 0 <= i < |order| ==> order[i] in nodes)
    && Distinct(order)
  }

  /** The ledger the chain spells out, from the head. */
  function View(nodes: map<nat, Region>, order: seq<nat>): (rs: seq<Region>)
    requires forall i :: 0 <= i < |order| ==> order[i] in nodes
    ensures |rs| == |order| && forall i :: 0 <= i < |order| ==> rs[i] == nodes[order[i]]
  {
    seq(|order|, i requires 0 <= i < |order| && order[i] in nodes => nodes[order[i]])
  }

  /** The listed process regions: handle to pid. */
  ghost function Owners(nodes: map<nat, Region>, order: seq<nat>): map<nat, nat>
  {
    map h | h in order && h in nodes && nodes[h].kind == Proc :: nodes[h].pid
  }

  /** The process table agrees with the list: each entry points at a
      listed process region carrying that pid, and each listed process
      region has the entry for its pid pointing at it. */
  ghost predicate Coherent(nodes: map<nat, Region>, order: seq<nat>, table: map<nat, nat>)
  {
    var owners := Owners(nodes, order);
    && (forall pid :: pid in table ==> table[pid] in owners && owners[table[pid]] == pid)
    && (forall h :: h in owners ==> owners[h] in table && table[owners[h]] == h)
  }

  /** A position in the ledger turned into the handle of the node there. */
  function HandleOf(order: seq<nat>, i: Option<nat>): Option<nat>
    requires i.Some? ==> i.value < |order|
  {
    if i.None? then None else Some(order[i.value])
  }

  /** With distinct handles, the position of the handle at k is k. */
  lemma IndexOfAt(order: seq<nat>, k: nat)
    requires Distinct(order) && k < |order|
    ensures IndexOf(order, order[k]) == k
  {
  }

  /** With a coherent table the entry for a pid is the region FindPid
      finds on the ledger, and there is an entry exactly when some region
      carries the pid. */
  lemma TableFinds(nodes: map<nat, Region>, order: seq<nat>, next: nat, table: map<nat, nat>, total: nat, pid: nat)
    requires Linked(nodes, order, next) && Coherent(nodes, order, table)
    requires LedgerInv(View(nodes, order), total)
    ensures pid in table <==> FindPid(View(nodes, order), pid).Some?
    ensures pid in table ==> table[pid] == order[FindPid(View(nodes, order), pid).value]
  {
    var rs := View(nodes, order);
    var owners := Owners(nodes, order);
    if pid in table {
      assert table[pid] in owners;
      var k := IndexOf(order, table[pid]);
      FindPidUnique(rs, pid, k);
    }
    match FindPid(rs, pid)
    case Some(k) =>
      assert order[k] in owners;
    case None =>
  }

  // ---------------------------------------------------------------------
  // Unlinking a node after combine

  /** The chain with the node at position k unlinked. */
  function Unlink(order: seq<nat>, k: nat): seq<nat>
    requires k < |order|
  {
    order[..k] + order[k + 1..]
  }

  /** Unlinking shifts the later handles down by one and keeps the chain
      free of duplicates. */
  lemma UnlinkAt(order: seq<nat>, k: nat)
    requires k < |order|
    ensures |Unlink(order, k)| == |order| - 1
    ensures forall j :: 0 <= j < k ==> Unlink(order, k)[j] == order[j]
    ensures forall j :: k <= j < |order| - 1 ==> Unlink(order, k)[j] == order[j + 1]
    ensures Distinct(order) ==> Distinct(Unlink(order, k))
  {
    var o2 := Unlink(order, k);
    if Distinct(order) {
      forall p, q | 0 <= p < q < |o2| ensures o2[p] != o2[q] {
        var p', q' := if p < k then p else p + 1, if q < k then q else q + 1;
        assert o2[p] == order[p'] && o2[q] == order[q'];
      }
    }
  }

  /** The arena after the node at position i takes in the next one's span
      and the next one is freed. */
  function Absorbed(nodes: map<nat, Region>, order: seq<nat>, i: nat): map<nat, Region>
    requires i + 1 < |order| && order[i] in nodes && order[i + 1] in nodes
  {
    var grown := nodes[order[i]].(size := nodes[order[i]].size + nodes[order[i + 1]].size);
    nodes[order[i] := grown] - {order[i + 1]}
  }

  /** The position of whichever of two listed handles comes first. */
  function Earlier(order: seq<nat>, a: nat, b: nat): nat
    requires a in order && b in order
  {
    if IndexOf(order, a) < IndexOf(order, b) then IndexOf(order, a) else IndexOf(order, b)
  }

  lemma UnlinkHas(order: seq<nat>, k: nat, x: nat)
    requires Distinct(order) && k < |order|
    ensures x in Unlink(order, k) <==> x in order && x != order[k]
  {
    var u := Unlink(order, k);
    if x in u {
      var j :| 0 <= j < |u| && u[j] == x;
      assert order[if j < k then j else j + 1] == x;
    }
    if x in order && x != order[k] {
      var j := IndexOf(order, x);
      assert u[if j < k then j else j - 1] == x;
    }
  }

  /** Absorbing keeps the arena linked and spells out the merged ledger. */
  lemma AbsorbedView(nodes: map<nat, Region>, order: seq<nat>, next: nat, i: nat)
    requires Linked(nodes, order, next) && i + 1 < |order|
    ensures Linked(Absorbed(nodes, order, i), Unlink(order, i + 1), next)
    ensures View(Absorbed(nodes, order, i), Unlink(order, i + 1)) == SplitMerge.Merge(View(nodes, order), i)
  {
    var rs := View(nodes, order);
    var n2, o2 := Absorbed(nodes, order, i), Unlink(order, i + 1);
    UnlinkAt(order, i + 1);
    forall k | 0 <= k < |o2|
      ensures o2[k] in n2 && n2[o2[k]] == (if k == i then rs[i].(size := rs[i].size + rs[i + 1].size) else if k < i then rs[k] else rs[k + 1])
    {
    }
    var out := View(n2, o2);
    assert SplitMerge.MergedAt(rs, out, i);
    SplitMerge.MergedUnique(rs, out, i);
  }

  /** Absorbing forgets the freed node and nothing else: the growing node
      keeps its kind and pid. */
  lemma AbsorbedOwners(nodes: map<nat, Region>, order: seq<nat>, next: nat, i: nat)
    requires Linked(nodes, order, next) && i + 1 < |order|
    ensures Owners(Absorbed(nodes, order, i), Unlink(order, i + 1)) == Owners(nodes, order) - {order[i + 1]}
  {
    var n2, o2 := Absorbed(nodes, order, i), Unlink(order, i + 1);
    var l, r := Owners(n2, o2), Owners(nodes, order) - {order[i + 1]};
    forall x
      ensures x in l <==> x in r
      ensures x in l ==> l[x] == r[x]
    {
      UnlinkHas(order, i + 1, x);
    }
    assert l == r;
  }

  // ---------------------------------------------------------------------
  // Splicing a node in before a hole (allocate)

  /** The chain with `node` linked in before the node at position i; the
      node at i stays only when `keep`. */
  function Spliced(order: seq<nat>, i: nat, node: nat, keep: bool): seq<nat>
    requires i < |order|
  {
    order[..i] + [node] + (if keep then [order[i]] else []) + order[i + 1..]
  }

  /** The arena after allocate carves `size` for `pid` off the hole at
      position i into `node`: the hole moves up and shrinks, and is freed
      when nothing of it is left. */
  function Carved(nodes: map<nat, Region>, order: seq<nat>, i: nat, node: nat, pid: nat, size: nat): map<nat, Region>
    requires i < |order| && order[i] in nodes && nodes[order[i]].size >= size
  {
    var h := order[i];
    var hole := nodes[h];
    var withNode := nodes[node := Region(Proc, hole.start, size, pid)];
    if hole.size == size then withNode - {h}
    else withNode[h := hole.(start := hole.start + size, size := hole.size - size)]
  }

  /** Splicing puts the new handle at i, keeps the old one after it when
      `keep`, and shifts the rest. */
  lemma SplicedAt(order: seq<nat>, i: nat, node: nat, keep: bool)
    requires i < |order|
    ensures var sp, d := Spliced(order, i, node, keep), if keep then 1 else 0;
      && |sp| == |order| + d
      && (forall j :: 0 <= j < i ==> sp[j] == order[j])
      && sp[i] == node
      && (forall j :: i + 1 <= j < |sp| ==> sp[j] == order[j - d])
  {
  }

  lemma SplicedHas(order: seq<nat>, i: nat, node: nat, keep: bool, x: nat)
    requires Distinct(order) && i < |order|
    ensures x in Spliced(order, i, node, keep) <==> x == node || (x in order && (keep || x != order[i]))
  {
    if x in Spliced(order, i, node, keep) && x != node {
      SplicedFrom(order, i, node, keep, x);
    }
    if x == node || (x in order && (keep || x != order[i])) {
      SplicedTo(order, i, node, keep, x);
    }
  }

  lemma SplicedTo(order: seq<nat>, i: nat, node: nat, keep: bool, x: nat)
    requires i < |order|
    requires x == node || (x in order && (keep || x != order[i]))
    ensures x in Spliced(order, i, node, keep)
  {
    var sp, d := Spliced(order, i, node, keep), if keep then 1 else 0;
    SplicedAt(order, i, node, keep);
    if x == node {
      assert sp[i] == x;
    } else {
      var j := IndexOf(order, x);
      assert sp[if j < i then j else j + d] == x;
    }
  }

  lemma SplicedFrom(order: seq<nat>, i: nat, node: nat, keep: bool, x: nat)
    requires Distinct(order) && i < |order|
    requires x in Spliced(order, i, node, keep) && x != node
    ensures x in order && (keep || x != order[i])
  {
    var sp, d := Spliced(order, i, node, keep), if keep then 1 else 0;
    SplicedAt(order, i, node, keep);
    var j :| 0 <= j < |sp| && sp[j] == x;
    var k := if j < i then j else j - d;
    assert order[k] == x;
  }



  /** Allocating keeps the arena linked. */
  lemma CarvedLinked(nodes: map<nat, Region>, order: seq<nat>, next: nat, i: nat, node: nat, pid: nat, size: nat)
    requires Linked(nodes, order, next) && i < |order|
    requires node !in nodes && node < next && Placement.Fits(nodes[order[i]], size)
    ensures Linked(Carved(nodes, order, i, node, pid, size), Spliced(order, i, node, nodes[order[i]].size != size), next)
  {
    var keep := nodes[order[i]].size != size;
    var d := if keep then 1 else 0;
    var n2, o2 := Carved(nodes, order, i, node, pid, size), Spliced(order, i, node, keep);
    assert |o2| == |order| + d;
    forall k | 0 <= k < |o2| ensures o2[k] in n2 {
      if k > i + d {
        assert o2[k] == order[k - d];
      } else if k < i {
        assert o2[k] == order[k];
      }
    }
    forall p, q | 0 <= p < q < |o2| ensures o2[p] != o2[q] {
      var p', q' := if p < i then p else p - d, if q < i then q else q - d;
      if p != i && q != i {
        assert o2[p] == order[p'] && o2[q] == order[q'];
      } else if q != i {
        assert o2[q] == order[q'];
      }
    }
  }

  /** The list after allocating spells out the carved ledger. */
  lemma CarvedView(nodes: map<nat, Region>, order: seq<nat>, next: nat, i: nat, node: nat, pid: nat, size: nat)
    requires Linked(nodes, order, next) && i < |order|
    requires node !in nodes && node < next && Placement.Fits(nodes[order[i]], size)
    ensures Linked(Carved(nodes, order, i, node, pid, size), Spliced(order, i, node, nodes[order[i]].size != size), next)
    ensures View(Carved(nodes, order, i, node, pid, size), Spliced(order, i, node, nodes[order[i]].size != size)) == SplitMerge.Carve(View(nodes, order), i, pid, size)
  {
    CarvedLinked(nodes, order, next, i, node, pid, size);
    var rs := View(nodes, order);
    var keep := nodes[order[i]].size != size;
    var d := if keep then 1 else 0;
    var n2, o2 := Carved(nodes, order, i, node, pid, size), Spliced(order, i, node, keep);
    var out := View(n2, o2);
    forall k | i + 1 + d <= k < |out| ensures out[k] == rs[k - d] {
      assert o2[k] == order[k - d];
    }
    forall k | 0 <= k < i ensures out[k] == rs[k] {
      assert o2[k] == order[k];
    }
    assert SplitMerge.CarvedAt(rs, out, i, pid, size, d);
    SplitMerge.CarvedUnique(rs, out, i, pid, size, d);
  }

  /** Allocating lists one more process region: `node`, for `pid`. */
  lemma CarvedOwners(nodes: map<nat, Region>, order: seq<nat>, next: nat, i: nat, node: nat, pid: nat, size: nat)
    requires Linked(nodes, order, next) && i < |order|
    requires node !in nodes && Placement.Fits(nodes[order[i]], size)
    ensures
      var keep := nodes[order[i]].size != size;
      Owners(Carved(nodes, order, i, node, pid, size), Spliced(order, i, node, keep)) == Owners(nodes, order)[node := pid]
  {
    var keep := nodes[order[i]].size != size;
    var n2, o2 := Carved(nodes, order, i, node, pid, size), Spliced(order, i, node, keep);
    var l, r := Owners(n2, o2), Owners(nodes, order)[node := pid];
    forall x
      ensures x in l <==> x in r
      ensures x in l ==> l[x] == r[x]
    {
      SplicedHas(order, i, node, keep, x);
    }
    assert l == r;
  }

  /** A node the arena never held is not listed as an owner. */
  lemma OwnersAddRemove(nodes: map<nat, Region>, order: seq<nat>, node: nat, pid: nat)
    requires node !in nodes
    ensures Owners(nodes, order)[node := pid] - {node} == Owners(nodes, order)
  {
    var owners := Owners(nodes, order);
    assert node !in owners;
    assert owners[node := pid] - {node} == owners;
  }

  /** Coherence depends on the list only through its owners. */
  lemma CoherentSameOwners(n1: map<nat, Region>, o1: seq<nat>, n2: map<nat, Region>, o2: seq<nat>, table: map<nat, nat>)
    requires Coherent(n1, o1, table) && Owners(n2, o2) == Owners(n1, o1)
    ensures Coherent(n2, o2, table)
  {
  }

  /** A new process region for a pid without an entry, and the entry
      installed for it, keep the table coherent. */
  lemma CoherentInstall(n1: map<nat, Region>, o1: seq<nat>, n2: map<nat, Region>, o2: seq<nat>, table: map<nat, nat>, node: nat, pid: nat)
    requires Coherent(n1, o1, table) && pid !in table && node !in Owners(n1, o1)
    requires Owners(n2, o2) == Owners(n1, o1)[node := pid]
    ensures Coherent(n2, o2, table[pid := node])
  {
  }

  /** A region turned into a hole, and its pid's entry dropped, keep the
      table coherent. */
  lemma CoherentRemove(n1: map<nat, Region>, o1: seq<nat>, n2: map<nat, Region>, o2: seq<nat>, table: map<nat, nat>, pid: nat)
    requires Coherent(n1, o1, table) && pid in table
    requires Owners(n2, o2) == Owners(n1, o1) - {table[pid]}
    ensures Coherent(n2, o2, table - {pid})
  {
  }

  // ---------------------------------------------------------------------
  // Turning a process region into a hole (release_reg)

  /** The arena with the node `h` turned into an unowned hole. */
  function Freed(nodes: map<nat, Region>, h: nat): map<nat, Region>
    requires h in nodes
  {
    nodes[h := nodes[h].(kind := Hole, pid := 0)]
  }

  lemma FreedView(nodes: map<nat, Region>, order: seq<nat>, next: nat, i: nat)
    requires Linked(nodes, order, next) && i < |order|
    ensures Linked(Freed(nodes, order[i]), order, next)
    ensures View(Freed(nodes, order[i]), order) == View(nodes, order)[i := Region(Hole, nodes[order[i]].start, nodes[order[i]].size, 0)]
  {
  }

  lemma FreedOwners(nodes: map<nat, Region>, order: seq<nat>, h: nat)
    requires h in nodes
    ensures Owners(Freed(nodes, h), order) == Owners(nodes, order) - {h}
  {
  }

  // ---------------------------------------------------------------------
  // One bubbling step of compact_regs

  /** The chain with the nodes at k and k + 1 trading places. */
  function Swapped(order: seq<nat>, k: nat): seq<nat>
    requires k + 1 < |order|
  {
    order[k := order[k + 1]][k + 1 := order[k]]
  }

  /** The hole at k starts where the process region after it ended up, and
      that region takes the hole's old start. */
  function Slid(nodes: map<nat, Region>, order: seq<nat>, k: nat): map<nat, Region>
    requires k + 1 < |order| && order[k] in nodes && order[k + 1] in nodes
  {
    var hole, proc := nodes[order[k]], nodes[order[k + 1]];
    nodes[order[k] := hole.(start := hole.start + proc.size)][order[k + 1] := proc.(start := hole.start)]
  }

  lemma SlidView(nodes: map<nat, Region>, order: seq<nat>, next: nat, k: nat)
    requires Linked(nodes, order, next) && k + 1 < |order|
    ensures Linked(Slid(nodes, order, k), Swapped(order, k), next)
    ensures View(Slid(nodes, order, k), Swapped(order, k)) == Compaction.Bubble(View(nodes, order), k)
  {
    var o2 := Swapped(order, k);
    forall p, q | 0 <= p < q < |o2| ensures o2[p] != o2[q] {
      var p' := if p == k then k + 1 else if p == k + 1 then k else p;
      var q' := if q == k then k + 1 else if q == k + 1 then k else q;
      assert o2[p] == order[p'] && o2[q] == order[q'];
    }
  }

  lemma SlidOwners(nodes: map<nat, Region>, order: seq<nat>, next: nat, k: nat)
    requires Linked(nodes, order, next) && k + 1 < |order|
    ensures Owners(Slid(nodes, order, k), Swapped(order, k)) == Owners(nodes, order)
  {
    var n2, o2 := Slid(nodes, order, k), Swapped(order, k);
    var l, r := Owners(n2, o2), Owners(nodes, order);
    forall x
      ensures x in l <==> x in r
      ensures x in l ==> l[x] == r[x]
    {
      if x in order {
        var j := IndexOf(order, x);
        assert o2[if j == k then k + 1 else if j == k + 1 then k else j] == x;
      }
      if x in o2 {
        var j := IndexOf(o2, x);
        assert order[if j == k then k + 1 else if j == k + 1 then k else j] == x;
      }
    }
    assert l == r;
  }
}
