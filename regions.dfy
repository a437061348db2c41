/** The region ledger of the contiguous allocator, as values: regions, the
    error kinds, and the invariants a ledger keeps between operations. */
module Regions {

  datatype Option<T> = None | Some(value: T)

  /** Error kinds of allocator.c, in the order of its `error` enum. */
  datatype Error =
    | EMem          // no hole fits, or an existing pid cannot grow in place
    | EFlag         // strategy flag other than 'F', 'B', 'W'
    | ENullReg      // no ledger (or no hole) to work on
    | ENotHole      // carving from a region that is not a hole
    | ENotDef       // pid has no entry in the process table
    | EHoleTooSmall // carving more than the hole holds
    | EEmpty        // request of size 0
    | EKind         // merging regions of different kinds
    | EPid          // merging regions of different pids
    | EAdj          // merging regions that are not neighbours

  datatype Result<T> = Ok(value: T) | Err(error: Error)

  /** The integer each error kind is returned as (the enum starts at 1). */
  function Code(e: Error): (c: int)
    ensures 1 <= c <= 10
  {
    match e
    case EMem => 1
    case EFlag => 2
    case ENullReg => 3
    case ENotHole => 4
    case ENotDef => 5
    case EHoleTooSmall => 6
    case EEmpty => 7
    case EKind => 8
    case EPid => 9
    case EAdj => 10
  }

  lemma CodeInjective(e1: Error, e2: Error)
    ensures Code(e1) == Code(e2) <==> e1 == e2
  {
  }

  /** The int a routine of the allocator returns for an outcome: 0 on
      success, the error's code otherwise. */
  function Status<T>(r: Result<T>): (c: int)
    ensures c == 0 <==> r.Ok?
    ensures 1 <= c <= 10 <==> r.Err?
  {
    if r.Ok? then 0 else Code(r.error)
  }

  /** The returned int loses nothing about the outcome: equal statuses mean
      both succeeded or both failed with the same error. */
  lemma StatusDecides<T>(r1: Result<T>, r2: Result<T>)
    requires Status(r1) == Status(r2)
    ensures r1.Ok? <==> r2.Ok?
    ensures r1.Err? ==> r1.error == r2.error
  {
    if r1.Err? {
      CodeInjective(r1.error, r2.error);
    }
  }

  datatype Kind = Hole | Proc

  /** One region: its kind, its span [start, start + size) and its owner
      (0 for a hole). */
  datatype Region = Region(kind: Kind, start: nat, size: nat, pid: nat)

  function End(r: Region): nat { r.start + r.size }

  predicate Owns(r: Region, pid: nat) { r.kind == Proc && r.pid == pid }

  /** The regions cover [lo, hi) in order, without gap or overlap, and none
      is empty. */
  predicate TilesFrom(rs: seq<Region>, lo: nat, hi: nat)
  {
    && (|rs| == 0 ==> lo == hi)
    && (|rs| > 0 ==> rs[0].start == lo && End(rs[|rs| - 1]) == hi)
    && (forall i :: 0 <= i < |rs| ==> rs[i].size > 0)
    && (forall i :: 0 <= i < |rs| - 1 ==> End(rs[i]) == rs[i + 1].start)
  }

  /** Total size of the regions. */
  function Sum(rs: seq<Region>): nat
  {
    if rs == [] then 0 else rs[0].size + Sum(rs[1..])
  }

  /** Every hole carries pid 0 (mem_init and release_reg both set it). */
  predicate HolesUnowned(rs: seq<Region>)
  {
    forall i :: 0 <= i < |rs| && rs[i].kind == Hole ==> rs[i].pid == 0
  }

  /** A pid owns at most one region. */
  predicate PidsUnique(rs: seq<Region>)
  {
    forall i, j :: 0 <= i < j < |rs| && rs[i].kind == Proc && rs[j].kind == Proc ==> rs[i].pid != rs[j].pid
  }

  /** No two neighbouring holes; with PidsUnique this is "no two neighbours
      that combine could merge". */
  predicate NoAdjacentHoles(rs: seq<Region>)
  {
    forall i :: 0 <= i < |rs| - 1 ==> rs[i].kind == Proc || rs[i + 1].kind == Proc
  }

  /** What a ledger keeps between public operations. */
  predicate LedgerInv(rs: seq<Region>, total: nat)
  {
    TilesFrom(rs, 0, total) && HolesUnowned(rs) && PidsUnique(rs) && NoAdjacentHoles(rs)
  }

  /** Tiling conserves size: the regions covering [lo, hi) sum to hi - lo. */
  lemma {:induction false} TilesSum(rs: seq<Region>, lo: nat, hi: nat)
    requires TilesFrom(rs, lo, hi)
    ensures lo + Sum(rs) == hi
  {
    if rs != [] {
      var tail := rs[1..];
      assert forall i :: 0 <= i < |tail| ==> tail[i] == rs[i + 1];
      assert TilesFrom(tail, End(rs[0]), hi);
      TilesSum(tail, End(rs[0]), hi);
    }
  }

  /** Two tilings that meet at `mid` make one tiling. */
  lemma TilesJoin(a: seq<Region>, b: seq<Region>, lo: nat, mid: nat, hi: nat)
    requires TilesFrom(a, lo, mid) && TilesFrom(b, mid, hi)
    ensures TilesFrom(a + b, lo, hi)
  {
    var ab := a + b;
    forall i | 0 <= i < |ab| - 1
      ensures End(ab[i]) == ab[i + 1].start
    {
      if i < |a| - 1 {
      } else if i == |a| - 1 {
      } else {
        assert ab[i] == b[i - |a|] && ab[i + 1] == b[i - |a| + 1];
      }
    }
  }

  /** Any piece ab[i..j] of a tiling tiles the span between its ends. */
  lemma TilesSlice(rs: seq<Region>, lo: nat, hi: nat, i: nat, j: nat)
    requires TilesFrom(rs, lo, hi) && i <= j <= |rs|
    ensures TilesFrom(rs[i..j], if i < |rs| then rs[i].start else hi, if j < |rs| then rs[j].start else hi)
  {
    var s := rs[i..j];
    if j < |rs| && i < j {
      assert End(s[|s| - 1]) == End(rs[j - 1]) == rs[j].start;
    }
    if i == j && i < |rs| && j < |rs| {
    }
    forall k | 0 <= k < |s| - 1
      ensures End(s[k]) == s[k + 1].start
    {
      assert s[k] == rs[i + k] && s[k + 1] == rs[i + k + 1];
    }
  }

  /** The process claims of a ledger: (pid, size) of each process region,
      in address order. */
  datatype Claim = Claim(pid: nat, size: nat)

  function Procs(rs: seq<Region>): seq<Claim>
  {
    if rs == [] then []
    else (if rs[0].kind == Proc then [Claim(rs[0].pid, rs[0].size)] else []) + Procs(rs[1..])
  }

  lemma {:induction false} ProcsConcat(a: seq<Region>, b: seq<Region>)
    ensures Procs(a + b) == Procs(a) + Procs(b)
  {
    if a != [] {
      assert (a + b)[1..] == a[1..] + b;
      ProcsConcat(a[1..], b);
    } else {
      assert a + b == b;
    }
  }

  lemma ProcsOne(r: Region)
    ensures Procs([r]) == if r.kind == Proc then [Claim(r.pid, r.size)] else []
  {
    assert [r][1..] == [];
  }

  /** The first region that `pid` owns (the ledger walk that lookup's
      process table stands in for). */
  function FindPid(rs: seq<Region>, pid: nat): (r: Option<nat>)
    ensures r.Some? ==> r.value < |rs| && Owns(rs[r.value], pid)
    ensures r.Some? ==> forall i :: 0 <= i < r.value ==> !Owns(rs[i], pid)
    ensures r.None? <==> forall i :: 0 <= i < |rs| ==> !Owns(rs[i], pid)
  {
    if rs == [] then None
    else if Owns(rs[0], pid) then Some(0)
    else match FindPid(rs[1..], pid)
      case None => None
      case Some(i) => Some(i + 1)
  }

  /** With unique pids, the region found is the only one the pid owns. */
  lemma FindPidUnique(rs: seq<Region>, pid: nat, k: nat)
    requires PidsUnique(rs) && k < |rs| && Owns(rs[k], pid)
    ensures FindPid(rs, pid) == Some(k)
  {
  }
}
