/** What stat reports: one address range per region, inclusive at both
    ends, with the owner's pid or "unused". */
module Report {
  import opened Regions

  datatype Label = Unused | Process(pid: nat)

  /** Addresses [first:last] and the label, as stat computes them. */
  datatype Line = Line(first: int, last: int, tag: Label)

  function LineOf(r: Region): Line
  {
    Line(r.start, r.start + r.size - 1, if r.kind == Proc then Process(r.pid) else Unused)
  }

  /** The report for a ledger, one line per region in list order. */
  function ReportOf(rs: seq<Region>): seq<Line>
  {
    seq(|rs|, i requires 0 <= i < |rs| => LineOf(rs[i]))
  }

  /** For a ledger tiling [0, total) the report's ranges are non-empty,
      consecutive and together cover exactly addresses 0 .. total - 1. */
  lemma ReportCovers(rs: seq<Region>, total: nat)
    requires TilesFrom(rs, 0, total) && total > 0
    ensures |ReportOf(rs)| == |rs| > 0
    ensures ReportOf(rs)[0].first == 0
    ensures ReportOf(rs)[|rs| - 1].last == total - 1
    ensures forall i :: 0 <= i < |rs| ==> ReportOf(rs)[i].first <= ReportOf(rs)[i].last
    ensures forall i :: 0 <= i < |rs| - 1 ==> ReportOf(rs)[i + 1].first == ReportOf(rs)[i].last + 1
  {
  }

  /** Each line gives its region's size back and names the owner exactly
      when the region is a process region. */
  lemma ReportFaithful(rs: seq<Region>, i: nat)
    requires i < |rs|
    ensures ReportOf(rs)[i].last - ReportOf(rs)[i].first + 1 == rs[i].size
    ensures ReportOf(rs)[i].tag.Process? <==> rs[i].kind == Proc
    ensures ReportOf(rs)[i].tag.Process? ==> ReportOf(rs)[i].tag.pid == rs[i].pid
  {
  }

  /** The lines labelled with a process, in order, are the ledger's claims. */
  function NamedPids(ls: seq<Line>): seq<nat>
  {
    if ls == [] then [] else (if ls[0].tag.Process? then [ls[0].tag.pid] else []) + NamedPids(ls[1..])
  }

  function ClaimPids(cs: seq<Claim>): seq<nat>
  {
    if cs == [] then [] else [cs[0].pid] + ClaimPids(cs[1..])
  }

  /** The report names the processes in the ledger's address order. */
  lemma {:induction false} ReportOwners(rs: seq<Region>)
    ensures NamedPids(ReportOf(rs)) == ClaimPids(Procs(rs))
  {
    if rs != [] {
      assert ReportOf(rs)[1..] == ReportOf(rs[1..]);
      ReportOwners(rs[1..]);
      var head := if rs[0].kind == Proc then [Claim(rs[0].pid, rs[0].size)] else [];
      ClaimPidsConcat(head, Procs(rs[1..]));
    }
  }

  lemma {:induction false} ClaimPidsConcat(a: seq<Claim>, b: seq<Claim>)
    ensures ClaimPids(a + b) == ClaimPids(a) + ClaimPids(b)
  {
    if a == [] {
      assert a + b == b;
    } else {
      assert (a + b)[1..] == a[1..] + b;
      ClaimPidsConcat(a[1..], b);
    }
  }
}
