/** Hole selection for a fresh allocation: first, best and worst fit.
    Each returns the position of the chosen hole in the ledger, or None. */
module Placement {
  import opened Regions

  /** A region can take a request of `size`: it is a hole at least that big. */
  predicate Fits(r: Region, size: nat) { r.kind == Hole && r.size >= size }

  /** First fit: the lowest-address hole that fits. */
  function FirstFit(rs: seq<Region>, size: nat): (r: Option<nat>)
    ensures r.Some? ==> r.value < |rs| && Fits(rs[r.value], size)
    ensures r.Some? ==> forall j :: 0 <= j < r.value ==> !Fits(rs[j], size)
    ensures r.None? <==> forall j :: 0 <= j < |rs| ==> !Fits(rs[j], size)
  {
    if rs == [] then None
    else if Fits(rs[0], size) then Some(0)
    else match FirstFit(rs[1..], size)
      case None => None
      case Some(j) => Some(j + 1)
  }

  /** Best fit among the first n regions, scanned the way the source scans
      them: a fitting hole replaces the running choice only when it is
      strictly smaller. */
  function BestFitIn(rs: seq<Region>, size: nat, n: nat): (r: Option<nat>)
    requires n <= |rs|
    ensures r.Some? ==> r.value < n && Fits(rs[r.value], size)
    ensures r.None? <==> forall j :: 0 <= j < n ==> !Fits(rs[j], size)
    ensures r.Some? ==> forall j :: 0 <= j < n && Fits(rs[j], size) ==> rs[r.value].size <= rs[j].size
    ensures r.Some? ==> forall j :: 0 <= j < r.value && Fits(rs[j], size) ==> rs[r.value].size < rs[j].size
  {
    if n == 0 then None
    else
      var best := BestFitIn(rs, size, n - 1);
      if Fits(rs[n - 1], size) && (best.None? || rs[n - 1].size < rs[best.value].size) then Some(n - 1)
      else best
  }

  /** Worst fit among the first n regions: a fitting hole replaces the
      running choice only when it is strictly larger. */
  function WorstFitIn(rs: seq<Region>, size: nat, n: nat): (r: Option<nat>)
    requires n <= |rs|
    ensures r.Some? ==> r.value < n && Fits(rs[r.value], size)
    ensures r.None? <==> forall j :: 0 <= j < n ==> !Fits(rs[j], size)
    ensures r.Some? ==> forall j :: 0 <= j < n && Fits(rs[j], size) ==> rs[j].size <= rs[r.value].size
    ensures r.Some? ==> forall j :: 0 <= j < r.value && Fits(rs[j], size) ==> rs[j].size < rs[r.value].size
  {
    if n == 0 then None
    else
      var worst := WorstFitIn(rs, size, n - 1);
      if Fits(rs[n - 1], size) && (worst.None? || rs[n - 1].size > rs[worst.value].size) then Some(n - 1)
      else worst
  }

  function BestFit(rs: seq<Region>, size: nat): Option<nat> { BestFitIn(rs, size, |rs|) }

  function WorstFit(rs: seq<Region>, size: nat): Option<nat> { WorstFitIn(rs, size, |rs|) }

  /** The strategy the flag names, applied: 'F', 'B' or 'W', anything else
      is EFlag. */
  function Select(rs: seq<Region>, size: nat, flag: char): (r: Result<Option<nat>>)
    ensures r.Err? <==> flag !in {'F', 'B', 'W'}
    ensures r.Err? ==> r.error == EFlag
    ensures r.Ok? && r.value.Some? ==> r.value.value < |rs| && Fits(rs[r.value.value], size)
    ensures r.Ok? ==> (r.value.None? <==> forall j :: 0 <= j < |rs| ==> !Fits(rs[j], size))
  {
    match flag
    case 'F' => Ok(FirstFit(rs, size))
    case 'B' => Ok(BestFit(rs, size))
    case 'W' => Ok(WorstFit(rs, size))
    case _ => Err(EFlag)
  }

  /** The three strategies agree on whether anything fits. */
  lemma StrategiesAgreeOnNone(rs: seq<Region>, size: nat)
    ensures FirstFit(rs, size).None? <==> BestFit(rs, size).None?
    ensures FirstFit(rs, size).None? <==> WorstFit(rs, size).None?
  {
  }
}
