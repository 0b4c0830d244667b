/**
 * The nearest of a sequence of optional hit parameters: the first position
 * holding the least parameter. Both a surface's own hit and the scan over a
 * list of surfaces are specified by it.
 */
module Nearest {
  import opened Options

  /**
   * Position `k` holds a parameter that is no larger than any other, and
   * strictly smaller than every parameter at an earlier position.
   */
  predicate IsFirstLeast(ts: seq<Option<real>>, k: nat) {
    && k < |ts| && ts[k].Some?
    && (forall j :: 0 <= j < |ts| && ts[j].Some? ==> ts[k].value <= ts[j].value)
    && (forall j :: 0 <= j < k && ts[j].Some? ==> ts[k].value < ts[j].value)
  }

  /** At most one position is the first least one. */
  lemma FirstLeastUnique(ts: seq<Option<real>>, k: nat, l: nat)
    requires IsFirstLeast(ts, k) && IsFirstLeast(ts, l)
    ensures k == l
  {
  }

  /**
   * The first position of the least parameter, found from the front: the
   * head wins unless the rest holds a strictly smaller parameter.
   */
  function FirstLeast(ts: seq<Option<real>>): (r: Option<nat>)
    ensures r.None? <==> forall j :: 0 <= j < |ts| ==> ts[j].None?
    ensures r.Some? ==> IsFirstLeast(ts, r.value)
    decreases |ts|
  {
    if |ts| == 0 then None
    else
      var rest := FirstLeast(ts[1..]);
      if ts[0].None? then
        (if rest.None? then None else Some(rest.value + 1))
      else if rest.None? || ts[0].value <= ts[1 + rest.value].value then Some(0)
      else Some(rest.value + 1)
  }

  /** Every parameter from [..] that lies below `bound`, the others dropped. */
  function Below(ts: seq<Option<real>>, bound: real): (r: seq<Option<real>>)
    ensures |r| == |ts|
    ensures forall j :: 0 <= j < |ts| ==>
      r[j] == if ts[j].Some? && ts[j].value < bound then ts[j] else None
  {
    seq(|ts|, j requires 0 <= j < |ts| => if ts[j].Some? && ts[j].value < bound then ts[j] else None)
  }

  /**
   * Lowering the bound keeps the nearest position when its parameter is below
   * the new bound, and leaves nothing otherwise.
   */
  lemma FirstLeastBelow(ts: seq<Option<real>>, bound: real)
    ensures var w := FirstLeast(ts);
      FirstLeast(Below(ts, bound)) == if w.Some? && ts[w.value].value < bound then w else None
  {
    var w := FirstLeast(ts);
    var below := Below(ts, bound);
    var wb := FirstLeast(below);
    if w.Some? && ts[w.value].value < bound {
      assert IsFirstLeast(below, w.value);
      FirstLeastUnique(below, w.value, wb.value);
    }
  }

  /** A new last parameter no smaller than the current first least one leaves it in place. */
  lemma ExtendKeeps(ts: seq<Option<real>>, k: nat, x: Option<real>)
    requires IsFirstLeast(ts, k)
    requires x.None? || ts[k].value <= x.value
    ensures IsFirstLeast(ts + [x], k)
  {
    var ext := ts + [x];
    forall j | 0 <= j < |ext| && ext[j].Some? ensures ext[k].value <= ext[j].value {
      if j < |ts| { assert ext[j] == ts[j]; }
    }
  }

  /** A new last parameter strictly below the current first least one takes its place. */
  lemma ExtendTakes(ts: seq<Option<real>>, k: nat, x: Option<real>)
    requires IsFirstLeast(ts, k)
    requires x.Some? && x.value < ts[k].value
    ensures IsFirstLeast(ts + [x], |ts|)
  {
    var ext := ts + [x];
    forall j | 0 <= j < |ext| && ext[j].Some? ensures ext[|ts|].value <= ext[j].value {
      if j < |ts| { assert ext[j] == ts[j]; }
    }
    forall j | 0 <= j < |ts| && ext[j].Some? ensures ext[|ts|].value < ext[j].value {
      assert ext[j] == ts[j];
    }
  }

  /** The first parameter after a run of absent ones is the first least. */
  lemma ExtendFirst(ts: seq<Option<real>>, x: Option<real>)
    requires forall j :: 0 <= j < |ts| ==> ts[j].None?
    requires x.Some?
    ensures IsFirstLeast(ts + [x], |ts|)
  {
    var ext := ts + [x];
    forall j | 0 <= j < |ts| ensures ext[j].None? {
      assert ext[j] == ts[j];
    }
  }

  /**
   * The state of a nearest-hit scan after the first `i` parameters: whether a
   * hit was found, at which position, and the current end of the search
   * interval, which is the found parameter or else the original end.
   */
  ghost predicate ScanState(ts: seq<Option<real>>, end: real, i: nat, found: bool, winner: nat, closest: real) {
    && i <= |ts|
    && (forall j :: 0 <= j < |ts| && ts[j].Some? ==> ts[j].value < end)
    && closest <= end
    && (!found <==> forall j :: 0 <= j < i ==> ts[j].None?)
    && (!found ==> closest == end)
    && (found ==> winner < i && ts[winner] == Some(closest) && IsFirstLeast(ts[..i], winner))
  }

  /** Accepting a parameter strictly below the current end makes it the nearest so far. */
  lemma ScanAccept(ts: seq<Option<real>>, end: real, i: nat, found: bool, winner: nat, closest: real)
    requires ScanState(ts, end, i, found, winner, closest)
    requires i < |ts| && ts[i].Some? && ts[i].value < closest
    ensures ScanState(ts, end, i + 1, true, i, ts[i].value)
  {
    assert ts[..i + 1] == ts[..i] + [ts[i]];
    if found {
      assert ts[..i][winner] == ts[winner];
      ExtendTakes(ts[..i], winner, ts[i]);
    } else {
      ExtendFirst(ts[..i], ts[i]);
    }
  }

  /** Passing over a position with no parameter below the current end changes nothing. */
  lemma ScanSkip(ts: seq<Option<real>>, end: real, i: nat, found: bool, winner: nat, closest: real)
    requires ScanState(ts, end, i, found, winner, closest)
    requires i < |ts| && (ts[i].None? || closest <= ts[i].value)
    ensures ScanState(ts, end, i + 1, found, winner, closest)
  {
    assert ts[..i + 1] == ts[..i] + [ts[i]];
    if found {
      assert ts[..i][winner] == ts[winner];
      ExtendKeeps(ts[..i], winner, ts[i]);
    }
  }

  /** At the end of the scan the found position is the first least one of the whole sequence. */
  lemma ScanDone(ts: seq<Option<real>>, end: real, found: bool, winner: nat, closest: real)
    requires ScanState(ts, end, |ts|, found, winner, closest)
    ensures found <==> FirstLeast(ts).Some?
    ensures found ==> FirstLeast(ts) == Some(winner)
  {
    assert ts[..|ts|] == ts;
    if found {
      FirstLeastUnique(ts, winner, FirstLeast(ts).value);
    }
  }
}
