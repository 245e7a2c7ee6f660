/**
 Group resolution: every declared group is instantiated once per supercell
 cell. The instance for cell `(a, b, c)` (0-based) lists the supercell
 positions of the group's atoms in that cell, copies amplitude and frequency
 from the declaration, and takes phase and scale from the override table
 entry of cell `(a+1, b+1, c+1)` for the group's name, defaulting to zero
 phase and unit scale.
 */
module Resolution {
  import opened Vectors
  import opened Configuration
  import opened Validation
  import opened RowMajor
  import opened IndexMap
  import opened Overrides

  /** One instance of a group in one cell; `indices` are 0-based supercell positions. */
  datatype ResolvedGroup = ResolvedGroup(indices: seq<int>, amplitude: Vec3, frequency: Vec3, phase: Vec3, scale: Vec3)

  predicate IndicesIn(idx: seq<int>, n: int) {
    forall k :: 0 <= k < |idx| ==> 0 <= idx[k] < n
  }

  /** Every index of every resolved group addresses one of `n` atoms. */
  predicate Fits(rs: seq<ResolvedGroup>, n: int) {
    forall g :: 0 <= g < |rs| ==> IndicesIn(rs[g].indices, n)
  }

  function CellKeyOf(a: int, b: int, c: int): CellKey {
    CellKey(a + 1, b + 1, c + 1)
  }

  /** The instance of declared group `g` in cell `(a, b, c)`. */
  function ResolveOne(g: GroupDef, d: Dims, total: nat, t: OverrideTable, a: int, b: int, c: int): ResolvedGroup {
    var o := Lookup(t, CellKeyOf(a, b, c), g.name);
    var abs := seq(|g.indices|, k requires 0 <= k < |g.indices| => AtomIndex(d, total, a, b, c, g.indices[k] - 1));
    ResolvedGroup(abs, g.amplitude, g.frequency, o.phase, o.scale)
  }

  /** Shape of the resolution loops: group outermost, then `a`, `b`, `c`. */
  function ResolveExtents(defs: seq<GroupDef>, d: Dims): seq<int> {
    [|defs|, d.nx, d.ny, d.nz]
  }

  /** Instances of group `g` in cells `(a, b, 0)` .. `(a, b, n - 1)`: the innermost loop. */
  function CellsC(g: GroupDef, d: Dims, total: nat, t: OverrideTable, a: int, b: int, n: nat): seq<ResolvedGroup> {
    if n == 0 then [] else CellsC(g, d, total, t, a, b, n - 1) + [ResolveOne(g, d, total, t, a, b, n - 1)]
  }

  /** Instances of group `g` in rows `b` = 0 .. n - 1 of slab `a`. */
  function CellsB(g: GroupDef, d: Dims, total: nat, t: OverrideTable, a: int, n: nat): seq<ResolvedGroup>
    requires DimsValid(d)
  {
    if n == 0 then [] else CellsB(g, d, total, t, a, n - 1) + CellsC(g, d, total, t, a, n - 1, d.nz)
  }

  /** Instances of group `g` in slabs `a` = 0 .. n - 1: every cell of the supercell. */
  function CellsA(g: GroupDef, d: Dims, total: nat, t: OverrideTable, n: nat): seq<ResolvedGroup>
    requires DimsValid(d)
  {
    if n == 0 then [] else CellsA(g, d, total, t, n - 1) + CellsB(g, d, total, t, n - 1, d.ny)
  }

  /** Instances of the first `n` groups, in the order the source's loops append them. */
  function ResolvePrefix(defs: seq<GroupDef>, d: Dims, total: nat, t: OverrideTable, n: nat): seq<ResolvedGroup>
    requires DimsValid(d) && n <= |defs|
  {
    if n == 0 then [] else ResolvePrefix(defs, d, total, t, n - 1) + CellsA(defs[n - 1], d, total, t, d.nx)
  }

  /** Resolution of all groups: one instance per group and cell. */
  function Resolve(defs: seq<GroupDef>, d: Dims, total: nat, t: OverrideTable): (r: seq<ResolvedGroup>)
    requires DimsValid(d)
    ensures |r| == |defs| * Volume(d)
  {
    ResolvePrefixLength(defs, d, total, t, |defs|);
    ResolvePrefix(defs, d, total, t, |defs|)
  }

  lemma {:induction false} CellsCLength(g: GroupDef, d: Dims, total: nat, t: OverrideTable, a: int, b: int, n: nat)
    ensures |CellsC(g, d, total, t, a, b, n)| == n
  {
    if n > 0 {
      CellsCLength(g, d, total, t, a, b, n - 1);
    }
  }

  lemma {:induction false} CellsCAt(g: GroupDef, d: Dims, total: nat, t: OverrideTable, a: int, b: int, n: nat, c: int)
    requires 0 <= c < n
    ensures c < |CellsC(g, d, total, t, a, b, n)|
    ensures CellsC(g, d, total, t, a, b, n)[c] == ResolveOne(g, d, total, t, a, b, c)
  {
    CellsCLength(g, d, total, t, a, b, n - 1);
    CellsCLength(g, d, total, t, a, b, n);
    if c < n - 1 {
      CellsCAt(g, d, total, t, a, b, n - 1, c);
    }
  }

  lemma {:induction false} CellsBLength(g: GroupDef, d: Dims, total: nat, t: OverrideTable, a: int, n: nat)
    requires DimsValid(d)
    ensures |CellsB(g, d, total, t, a, n)| == n * d.nz
  {
    if n > 0 {
      CellsBLength(g, d, total, t, a, n - 1);
      CellsCLength(g, d, total, t, a, n - 1, d.nz);
      assert (n - 1) * d.nz + d.nz == n * d.nz;
    }
  }

  lemma {:induction false} CellsBAt(g: GroupDef, d: Dims, total: nat, t: OverrideTable, a: int, n: nat, b: int, c: int)
    requires DimsValid(d) && 0 <= b < n && 0 <= c < d.nz
    ensures 0 <= b * d.nz + c < |CellsB(g, d, total, t, a, n)|
    ensures CellsB(g, d, total, t, a, n)[b * d.nz + c] == ResolveOne(g, d, total, t, a, b, c)
  {
    var init := CellsB(g, d, total, t, a, n - 1);
    var last := CellsC(g, d, total, t, a, n - 1, d.nz);
    CellsBLength(g, d, total, t, a, n - 1);
    CellsBLength(g, d, total, t, a, n);
    MulAddBound(b, c, n, d.nz);
    if b < n - 1 {
      CellsBAt(g, d, total, t, a, n - 1, b, c);
    } else {
      CellsCAt(g, d, total, t, a, b, d.nz, c);
      assert b * d.nz + c == |init| + c;
    }
  }

  lemma {:induction false} CellsALength(g: GroupDef, d: Dims, total: nat, t: OverrideTable, n: nat)
    requires DimsValid(d)
    ensures |CellsA(g, d, total, t, n)| == n * (d.ny * d.nz)
  {
    if n > 0 {
      CellsALength(g, d, total, t, n - 1);
      CellsBLength(g, d, total, t, n - 1, d.ny);
      assert (n - 1) * (d.ny * d.nz) + d.ny * d.nz == n * (d.ny * d.nz);
    }
  }

  lemma {:induction false} CellsAAt(g: GroupDef, d: Dims, total: nat, t: OverrideTable, n: nat, a: int, b: int, c: int)
    requires DimsValid(d) && 0 <= a < n && 0 <= b < d.ny && 0 <= c < d.nz
    ensures 0 <= a * (d.ny * d.nz) + (b * d.nz + c) < |CellsA(g, d, total, t, n)|
    ensures CellsA(g, d, total, t, n)[a * (d.ny * d.nz) + (b * d.nz + c)] == ResolveOne(g, d, total, t, a, b, c)
  {
    var init := CellsA(g, d, total, t, n - 1);
    var inner := b * d.nz + c;
    CellsALength(g, d, total, t, n - 1);
    CellsALength(g, d, total, t, n);
    MulAddBound(b, c, d.ny, d.nz);
    MulAddBound(a, inner, n, d.ny * d.nz);
    if a < n - 1 {
      CellsAAt(g, d, total, t, n - 1, a, b, c);
    } else {
      CellsBAt(g, d, total, t, a, d.ny, b, c);
      assert a * (d.ny * d.nz) + inner == |init| + inner;
    }
  }

  lemma {:induction false} ResolvePrefixLength(defs: seq<GroupDef>, d: Dims, total: nat, t: OverrideTable, n: nat)
    requires DimsValid(d) && n <= |defs|
    ensures |ResolvePrefix(defs, d, total, t, n)| == n * Volume(d)
  {
    if n > 0 {
      ResolvePrefixLength(defs, d, total, t, n - 1);
      CellsALength(defs[n - 1], d, total, t, d.nx);
      VolumeAssoc(d);
      assert (n - 1) * Volume(d) + Volume(d) == n * Volume(d);
    }
  }

  lemma VolumeAssoc(d: Dims)
    ensures d.nx * (d.ny * d.nz) == Volume(d)
  {
  }

  /** Every position of the resolution loops' box is an instance of the resolution. */
  lemma ExtentsCoverResolve(defs: seq<GroupDef>, d: Dims, total: nat, t: OverrideTable)
    requires DimsValid(d)
    ensures Size(ResolveExtents(defs, d)) == |Resolve(defs, d, total, t)|
  {
    var n := |defs|;
    Size4(n, d.nx, d.ny, d.nz);
    assert n * d.nx * d.ny * d.nz == n * (d.nx * d.ny * d.nz);
  }

  /** Position of the instance `(g, a, b, c)` in the row-major order of the resolution loops. */
  lemma FlatResolve(defs: seq<GroupDef>, d: Dims, g: int, a: int, b: int, c: int)
    ensures Flat([g, a, b, c], ResolveExtents(defs, d))
         == g * Volume(d) + (a * (d.ny * d.nz) + (b * d.nz + c))
  {
    Flat4(g, a, b, c, |defs|, d.nx, d.ny, d.nz);
    assert (g * d.nx + a) * d.ny + b == g * d.nx * d.ny + a * d.ny + b;
    assert ((g * d.nx + a) * d.ny + b) * d.nz == g * (d.nx * d.ny * d.nz) + a * (d.ny * d.nz) + b * d.nz;
  }

  lemma {:induction false} ResolvePrefixAt(defs: seq<GroupDef>, d: Dims, total: nat, t: OverrideTable, n: nat,
                                           g: int, a: int, b: int, c: int)
    requires DimsValid(d) && n <= |defs| && 0 <= g < n && InCells(d, a, b, c)
    ensures 0 <= g * Volume(d) + (a * (d.ny * d.nz) + (b * d.nz + c)) < |ResolvePrefix(defs, d, total, t, n)|
    ensures ResolvePrefix(defs, d, total, t, n)[g * Volume(d) + (a * (d.ny * d.nz) + (b * d.nz + c))]
         == ResolveOne(defs[g], d, total, t, a, b, c)
  {
    var init := ResolvePrefix(defs, d, total, t, n - 1);
    var inner := a * (d.ny * d.nz) + (b * d.nz + c);
    ResolvePrefixLength(defs, d, total, t, n - 1);
    ResolvePrefixLength(defs, d, total, t, n);
    CellsALength(defs[n - 1], d, total, t, d.nx);
    CellsAAt(defs[n - 1], d, total, t, d.nx, a, b, c);
    VolumeAssoc(d);
    MulAddBound(g, inner, n, Volume(d));
    if g < n - 1 {
      ResolvePrefixAt(defs, d, total, t, n - 1, g, a, b, c);
    } else {
      assert g * Volume(d) + inner == |init| + inner;
    }
  }

  /**
   Instances are ordered by group, then `a`, then `b`, then `c`: the
   instance of group `g` in cell `(a, b, c)` sits at the row-major position
   of `(g, a, b, c)`.
   */
  lemma ResolveOrder(defs: seq<GroupDef>, d: Dims, total: nat, t: OverrideTable, g: int, a: int, b: int, c: int)
    requires DimsValid(d) && 0 <= g < |defs| && InCells(d, a, b, c)
    ensures var k := Flat([g, a, b, c], ResolveExtents(defs, d));
      && 0 <= k < |Resolve(defs, d, total, t)|
      && Resolve(defs, d, total, t)[k] == ResolveOne(defs[g], d, total, t, a, b, c)
  {
    FlatResolve(defs, d, g, a, b, c);
    ResolvePrefixAt(defs, d, total, t, |defs|, g, a, b, c);
  }

  /**
   An instance of a valid group copies amplitude and frequency, keeps the
   declared indices' order and length, and each of its indices is the
   supercell position of the declared atom in this cell: it lies in the
   cell's contiguous block and maps back to `(a, b, c, i - 1)`.
   */
  lemma ResolvedGroupShape(g: GroupDef, d: Dims, total: nat, t: OverrideTable, a: int, b: int, c: int)
    requires DimsValid(d) && InCells(d, a, b, c) && IndicesValid(g, total)
    ensures var r := ResolveOne(g, d, total, t, a, b, c);
      && r.amplitude == g.amplitude && r.frequency == g.frequency
      && |r.indices| == |g.indices|
      && (forall k :: 0 <= k < |r.indices| ==>
            && CellStart(d, total, a, b, c) <= r.indices[k] < CellStart(d, total, a, b, c) + total
            && 0 <= r.indices[k] < SupercellAtoms(d, total)
            && Decompose(d, total, r.indices[k]) == [a, b, c, g.indices[k] - 1])
  {
    var r := ResolveOne(g, d, total, t, a, b, c);
    forall k | 0 <= k < |r.indices|
      ensures CellStart(d, total, a, b, c) <= r.indices[k] < CellStart(d, total, a, b, c) + total
      ensures 0 <= r.indices[k] < SupercellAtoms(d, total)
      ensures Decompose(d, total, r.indices[k]) == [a, b, c, g.indices[k] - 1]
    {
      AtomIndexSound(d, total, a, b, c, g.indices[k] - 1);
    }
  }

  /** Once every group is valid, every resolved index addresses an atom of the supercell. */
  lemma ResolveFits(defs: seq<GroupDef>, d: Dims, total: nat, t: OverrideTable)
    requires DimsValid(d) && AllIndicesValid(defs, total)
    ensures Fits(Resolve(defs, d, total, t), SupercellAtoms(d, total))
  {
    var r := Resolve(defs, d, total, t);
    var e := ResolveExtents(defs, d);
    ExtentsCoverResolve(defs, d, total, t);
    forall k | 0 <= k < |r|
      ensures IndicesIn(r[k].indices, SupercellAtoms(d, total))
    {
      SplitBounds(k, e);
      var p := Split(k, e);
      assert p == [p[0], p[1], p[2], p[3]];
      ResolveOrder(defs, d, total, t, p[0], p[1], p[2], p[3]);
      ResolvedGroupShape(defs[p[0]], d, total, t, p[1], p[2], p[3]);
    }
  }

  /**
   One 1x1x1 supercell, one group on atom 1 and no overrides: a single
   instance on supercell atom 0 with zero phase and unit scale.
   */
  lemma SingleCellDefaults(amplitude: Vec3, frequency: Vec3)
    ensures Resolve([GroupDef("A", [1], amplitude, frequency)], Dims(1, 1, 1), 1, BuildTable([]))
         == [ResolvedGroup([0], amplitude, frequency, Zero, Ones)]
  {
    var defs := [GroupDef("A", [1], amplitude, frequency)];
    var d := Dims(1, 1, 1);
    var t := BuildTable([]);
    SingleCellInstance(defs[0], t);
    ResolveOrder(defs, d, 1, t, 0, 0, 0, 0);
    var r := Resolve(defs, d, 1, t);
    assert |r| == 1;
    Singleton(r);
  }

  lemma SingleCellInstance(g: GroupDef, t: OverrideTable)
    requires g.indices == [1] && t == BuildTable([])
    ensures ResolveOne(g, Dims(1, 1, 1), 1, t, 0, 0, 0) == ResolvedGroup([0], g.amplitude, g.frequency, Zero, Ones)
  {
    var d := Dims(1, 1, 1);
    assert t == map[] by {
      assert CellPairs([]) == [];
    }
    assert Lookup(t, CellKeyOf(0, 0, 0), g.name) == Default;
    var abs := seq(|g.indices|, k requires 0 <= k < |g.indices| => AtomIndex(d, 1, 0, 0, 0, g.indices[k] - 1));
    assert ResolveOne(g, d, 1, t, 0, 0, 0).indices == abs;
    AtomIndexClosedForm(d, 1, 0, 0, 0, 0);
    assert |abs| == 1 && abs[0] == 0;
    Singleton(abs);
  }

  lemma Singleton<T>(s: seq<T>)
    requires |s| == 1
    ensures s == [s[0]]
  {
  }

  /** `params[p]` is the last `parameters` item for `key`. */
  predicate LastCellEntry(params: seq<CellParameters>, p: int, key: CellKey) {
    && 0 <= p < |params| && params[p].supercellIndex == key
    && forall j :: p < j < |params| ==> params[j].supercellIndex != key
  }

  /** `entries[e]` is the last override item named `name`. */
  predicate LastGroupEntry(entries: seq<OverrideSpec>, e: int, name: string) {
    && 0 <= e < |entries| && entries[e].name == name
    && forall j :: e < j < |entries| ==> entries[j].name != name
  }

  /** The configuration overrides group `name` in cell `key`. */
  predicate HasOverride(params: seq<CellParameters>, key: CellKey, name: string) {
    exists p :: 0 <= p < |params| && LastCellEntry(params, p, key) && exists e :: 0 <= e < |params[p].groups| && params[p].groups[e].name == name
  }

  /**
   When the last `parameters` item for the cell lists the group's name, the
   instance takes phase and scale from the last such listing.
   */
  lemma OverrideApplied(params: seq<CellParameters>, g: GroupDef, d: Dims, total: nat,
                        a: int, b: int, c: int, p: int, e: int)
    requires LastCellEntry(params, p, CellKeyOf(a, b, c))
    requires LastGroupEntry(params[p].groups, e, g.name)
    ensures var r := ResolveOne(g, d, total, BuildTable(params), a, b, c);
      r.phase == params[p].groups[e].phase && r.scale == params[p].groups[e].scale
  {
    BuildTableLastWins(params, p);
    GroupTableLastWins(params[p].groups, e);
  }

  /**
   Without an override for this cell and name (no item for the cell, or the
   last item for it does not list the name), the instance has zero phase and
   unit scale.
   */
  lemma OverrideDefaults(params: seq<CellParameters>, g: GroupDef, d: Dims, total: nat, a: int, b: int, c: int)
    requires !HasOverride(params, CellKeyOf(a, b, c), g.name)
    ensures var r := ResolveOne(g, d, total, BuildTable(params), a, b, c);
      r.phase == Zero && r.scale == Ones
  {
    var key := CellKeyOf(a, b, c);
    var t := BuildTable(params);
    BuildTableKeys(params, key);
    if key in t {
      var p := LastIndexOf(params, key);
      BuildTableLastWins(params, p);
      GroupTableKeys(params[p].groups, g.name);
    }
  }

  /** Position of the last `parameters` item for `key`, when there is one. */
  function LastIndexOf(params: seq<CellParameters>, key: CellKey): (p: int)
    requires exists k :: 0 <= k < |params| && params[k].supercellIndex == key
    ensures LastCellEntry(params, p, key)
  {
    if params[|params| - 1].supercellIndex == key then |params| - 1
    else
      var init := params[..|params| - 1];
      assert exists k :: 0 <= k < |init| && init[k].supercellIndex == key by {
        var k :| 0 <= k < |params| && params[k].supercellIndex == key;
        assert init[k] == params[k];
      }
      LastIndexOf(init, key)
  }

  /** Names declared by the groups. */
  function Names(defs: seq<GroupDef>): set<string> {
    set g | g in defs :: g.name
  }

  predicate KeyInCells(d: Dims, key: CellKey) {
    1 <= key.a <= d.nx && 1 <= key.b <= d.ny && 1 <= key.c <= d.nz
  }

  /** The override table with entries for cells outside the supercell and for undeclared names removed. */
  function Prune(t: OverrideTable, defs: seq<GroupDef>, d: Dims): (t': OverrideTable)
    ensures forall key :: key in t' ==> KeyInCells(d, key) && t'[key].Keys <= Names(defs)
  {
    map key | key in t && KeyInCells(d, key) :: map n | n in t[key] && n in Names(defs) :: t[key][n]
  }

  /** Overrides for cells outside the dimensions, or for names no group declares, are never used. */
  lemma PrunedOverridesIgnored(defs: seq<GroupDef>, d: Dims, total: nat, t: OverrideTable)
    requires DimsValid(d)
    ensures Resolve(defs, d, total, Prune(t, defs, d)) == Resolve(defs, d, total, t)
  {
    var t' := Prune(t, defs, d);
    var r, r' := Resolve(defs, d, total, t), Resolve(defs, d, total, t');
    var e := ResolveExtents(defs, d);
    ExtentsCoverResolve(defs, d, total, t);
    forall k | 0 <= k < |r|
      ensures r'[k] == r[k]
    {
      SplitBounds(k, e);
      var p := Split(k, e);
      assert p == [p[0], p[1], p[2], p[3]];
      ResolveOrder(defs, d, total, t, p[0], p[1], p[2], p[3]);
      ResolveOrder(defs, d, total, t', p[0], p[1], p[2], p[3]);
      var g := defs[p[0]];
      assert g.name in Names(defs);
      var key := CellKeyOf(p[1], p[2], p[3]);
      assert KeyInCells(d, key);
      assert Lookup(t', key, g.name) == Lookup(t, key, g.name);
    }
  }

  /**
   The three inner loops of the source for one group: one instance per cell,
   `a` outermost and `c` innermost, appended in visiting order.
   */
  method ResolveCells(g: GroupDef, d: Dims, total: nat, t: OverrideTable) returns (cells: seq<ResolvedGroup>)
    requires DimsValid(d)
    ensures cells == CellsA(g, d, total, t, d.nx)
  {
    cells := [];
    var a := 0;
    while a < d.nx
      invariant 0 <= a <= d.nx
      invariant cells == CellsA(g, d, total, t, a)
    {
      var b := 0;
      while b < d.ny
        invariant 0 <= b <= d.ny
        invariant cells == CellsA(g, d, total, t, a) + CellsB(g, d, total, t, a, b)
      {
        var c := 0;
        while c < d.nz
          invariant 0 <= c <= d.nz
          invariant cells == CellsA(g, d, total, t, a) + CellsB(g, d, total, t, a, b) + CellsC(g, d, total, t, a, b, c)
        {
          cells := cells + [ResolveOne(g, d, total, t, a, b, c)];
          c := c + 1;
        }
        b := b + 1;
      }
      a := a + 1;
    }
  }

  /**
   The source's group loop: groups in declaration order, each checked before
   its instances are appended, the first invalid one aborting the run. The
   outcome is the first-failure error of the group check, or exactly `Resolve`.
   */
  method ResolveGroups(defs: seq<GroupDef>, d: Dims, total: nat, t: OverrideTable) returns (r: Result<seq<ResolvedGroup>>)
    requires DimsValid(d) && ReachedNonEmpty(defs, total)
    ensures CheckGroups(defs, total) == Pass ==> r == Success(Resolve(defs, d, total, t))
    ensures CheckGroups(defs, total) != Pass ==> r == Failure(CheckGroups(defs, total).error)
  {
    var list: seq<ResolvedGroup> := [];
    var g := 0;
    while g < |defs|
      invariant 0 <= g <= |defs|
      invariant forall h :: 0 <= h < g ==> IndicesValid(defs[h], total)
      invariant list == ResolvePrefix(defs, d, total, t, g)
    {
      InBoundsIff(defs[g], total);
      if !InBounds(defs[g], total) {
        return Failure(IndexOutOfRange(g, total));
      }
      var cells := ResolveCells(defs[g], d, total, t);
      list := list + cells;
      g := g + 1;
    }
    r := Success(list);
  }
}
