/**
 The checks made before any mapping, resolution or frame is produced:
 every supercell dimension must be at least 1, and every atom index of every
 group must lie in `[1, total]`, where `total` is the base-cell atom count.
 */
module Validation {
  import opened Configuration
  import Vectors

  predicate DimsValid(d: Dims) {
    d.nx >= 1 && d.ny >= 1 && d.nz >= 1
  }

  function DimsList(d: Dims): seq<int> {
    [d.nx, d.ny, d.nz]
  }

  /** Walk the dimensions in order; the first one that is not positive aborts. */
  function CheckEach(ds: seq<int>): (r: Outcome)
    ensures r == Pass <==> forall k :: 0 <= k < |ds| ==> ds[k] >= 1
    ensures r != Pass ==> r == Fail(InvalidDimensions)
  {
    if |ds| == 0 then Pass
    else if ds[0] <= 0 then Fail(InvalidDimensions)
    else CheckEach(ds[1..])
  }

  function CheckDimensions(d: Dims): (r: Outcome)
    ensures r == Pass <==> DimsValid(d)
    ensures r != Pass ==> r == Fail(InvalidDimensions)
  {
    var ds := DimsList(d);
    assert ds[0] == d.nx && ds[1] == d.ny && ds[2] == d.nz;
    CheckEach(ds)
  }

  function Min(s: seq<int>): (m: int)
    requires |s| > 0
    ensures m in s
    ensures forall k :: 0 <= k < |s| ==> m <= s[k]
  {
    if |s| == 1 then s[0]
    else
      var rest := Min(s[1..]);
      if s[0] <= rest then s[0] else rest
  }

  function Max(s: seq<int>): (m: int)
    requires |s| > 0
    ensures m in s
    ensures forall k :: 0 <= k < |s| ==> s[k] <= m
  {
    if |s| == 1 then s[0]
    else
      var rest := Max(s[1..]);
      if s[0] >= rest then s[0] else rest
  }

  /** The bounds test on one group, phrased through the minimum and maximum index. */
  predicate InBounds(g: GroupDef, total: nat)
    requires |g.indices| > 0
  {
    !(Min(g.indices) < 1 || Max(g.indices) > total)
  }

  /** Every listed index is a valid 1-based base-cell atom index. */
  predicate IndicesValid(g: GroupDef, total: nat) {
    forall k :: 0 <= k < |g.indices| ==> 1 <= g.indices[k] <= total
  }

  /** The min/max test accepts exactly the groups whose every index is in range. */
  lemma InBoundsIff(g: GroupDef, total: nat)
    requires |g.indices| > 0
    ensures InBounds(g, total) <==> IndicesValid(g, total)
  {
    var lo, hi := Min(g.indices), Max(g.indices);
    if !IndicesValid(g, total) {
      var k :| 0 <= k < |g.indices| && !(1 <= g.indices[k] <= total);
      assert lo <= g.indices[k] <= hi;
    }
  }

  /**
   Every group the check reaches from position `from` lists at least one index:
   a group is reached when all groups before it, from `from` on, are valid.
   Groups after the first invalid one are never read, so they may be empty.
   */
  predicate ReachedNonEmptyFrom(defs: seq<GroupDef>, total: nat, from: nat) {
    forall g :: from <= g < |defs| && (forall h :: from <= h < g ==> IndicesValid(defs[h], total)) ==>
      |defs[g].indices| > 0
  }

  predicate ReachedNonEmpty(defs: seq<GroupDef>, total: nat) {
    ReachedNonEmptyFrom(defs, total, 0)
  }

  predicate AllIndicesValid(defs: seq<GroupDef>, total: nat) {
    forall g :: 0 <= g < |defs| ==> IndicesValid(defs[g], total)
  }

  /** Groups are checked in declaration order from position `from`; the first invalid one aborts. */
  function CheckGroupsFrom(defs: seq<GroupDef>, total: nat, from: nat): (r: Outcome)
    requires from <= |defs| && ReachedNonEmptyFrom(defs, total, from)
    ensures r == Pass <==> forall g :: from <= g < |defs| ==> IndicesValid(defs[g], total)
    ensures r != Pass ==> r.error.IndexOutOfRange? && r.error.total == total
    ensures r != Pass ==> from <= r.error.group < |defs| && !IndicesValid(defs[r.error.group], total)
    ensures r != Pass ==> forall g :: from <= g < r.error.group ==> IndicesValid(defs[g], total)
    decreases |defs| - from
  {
    if from == |defs| then Pass
    else
      InBoundsIff(defs[from], total);
      if !InBounds(defs[from], total) then Fail(IndexOutOfRange(from, total))
      else CheckGroupsFrom(defs, total, from + 1)
  }

  /** The whole group check: passes iff all groups are valid, otherwise names the first invalid one. */
  function CheckGroups(defs: seq<GroupDef>, total: nat): (r: Outcome)
    requires ReachedNonEmpty(defs, total)
    ensures r == Pass <==> AllIndicesValid(defs, total)
    ensures r != Pass ==> r.error.IndexOutOfRange? && r.error.total == total
    ensures r != Pass ==> r.error.group < |defs| && !IndicesValid(defs[r.error.group], total)
    ensures r != Pass ==> forall g :: 0 <= g < r.error.group ==> IndicesValid(defs[g], total)
  {
    CheckGroupsFrom(defs, total, 0)
  }

  /** With four base atoms, a group listing atom 5 is rejected, naming that group and the range. */
  lemma OutOfRangeRejected(amplitude: Vectors.Vec3, frequency: Vectors.Vec3)
    ensures CheckGroups([GroupDef("A", [5], amplitude, frequency)], 4) == Fail(IndexOutOfRange(0, 4))
  {
    var defs := [GroupDef("A", [5], amplitude, frequency)];
    assert defs[0].indices[0] == 5;
    assert !IndicesValid(defs[0], 4);
  }

  /**
   The check stops at the first invalid group: a later group with no indices is
   never read, so the run aborts on group 0 rather than on the empty list.
   */
  lemma UnreachedGroupIgnored(amplitude: Vectors.Vec3, frequency: Vectors.Vec3)
    ensures var defs := [GroupDef("A", [5], amplitude, frequency), GroupDef("B", [], amplitude, frequency)];
      ReachedNonEmpty(defs, 4) && CheckGroups(defs, 4) == Fail(IndexOutOfRange(0, 4))
  {
    var defs := [GroupDef("A", [5], amplitude, frequency), GroupDef("B", [], amplitude, frequency)];
    assert defs[0].indices[0] == 5;
    assert !IndicesValid(defs[0], 4);
  }
}
