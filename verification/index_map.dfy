/**
 The index mapping from (supercell cell `(a, b, c)`, base-cell atom `i`), all
 0-based, to the position of that atom in the replicated supercell. The
 source builds it as `np.arange(nx*ny*nz*total).reshape(nx, ny, nz, -1)`;
 here it is the closed form of that row-major reshape. The replication
 routine that produces the supercell positions is assumed to use the same
 order: cell `a` outermost, then `b`, then `c`, base atoms fastest.
 */
module IndexMap {
  import opened Configuration
  import opened Validation
  import opened RowMajor

  function Volume(d: Dims): int {
    d.nx * d.ny * d.nz
  }

  /** Number of atoms in the replicated supercell. */
  function SupercellAtoms(d: Dims, total: nat): int {
    Volume(d) * total
  }

  /** Shape of the reshaped mapping array. */
  function MapExtents(d: Dims, total: nat): seq<int> {
    [d.nx, d.ny, d.nz, total]
  }

  predicate InCells(d: Dims, a: int, b: int, c: int) {
    0 <= a < d.nx && 0 <= b < d.ny && 0 <= c < d.nz
  }

  /** `index_mapping[a, b, c, i]`. */
  function AtomIndex(d: Dims, total: nat, a: int, b: int, c: int, i: int): int {
    Flat([a, b, c, i], MapExtents(d, total))
  }

  /** First position of cell `(a, b, c)`'s block: where its base atom 0 sits. */
  function CellStart(d: Dims, total: nat, a: int, b: int, c: int): int {
    AtomIndex(d, total, a, b, c, 0)
  }

  /** Inverse of the mapping: the (cell, atom) coordinates stored at supercell position `k`. */
  function Decompose(d: Dims, total: nat, k: int): seq<int>
    requires DimsValid(d) && total >= 1 && 0 <= k
  {
    Split(k, MapExtents(d, total))
  }

  /** The mapping is the closed form `((a*ny + b)*nz + c)*total + i` of the reshape. */
  lemma AtomIndexClosedForm(d: Dims, total: nat, a: int, b: int, c: int, i: int)
    ensures AtomIndex(d, total, a, b, c, i) == ((a * d.ny + b) * d.nz + c) * total + i
  {
    Flat4(a, b, c, i, d.nx, d.ny, d.nz, total);
  }

  /** The reshaped array has exactly as many entries as the supercell has atoms. */
  lemma MapSize(d: Dims, total: nat)
    ensures Size(MapExtents(d, total)) == SupercellAtoms(d, total)
  {
    Size4(d.nx, d.ny, d.nz, total);
  }

  /**
   Each in-range (cell, atom) pair lands inside `[0, nx*ny*nz*total)`, inside
   its own cell's contiguous block, and the inverse recovers it.
   */
  lemma AtomIndexSound(d: Dims, total: nat, a: int, b: int, c: int, i: int)
    requires DimsValid(d) && InCells(d, a, b, c) && 0 <= i < total
    ensures 0 <= AtomIndex(d, total, a, b, c, i) < SupercellAtoms(d, total)
    ensures CellStart(d, total, a, b, c) <= AtomIndex(d, total, a, b, c, i) < CellStart(d, total, a, b, c) + total
    ensures Decompose(d, total, AtomIndex(d, total, a, b, c, i)) == [a, b, c, i]
  {
    var e := MapExtents(d, total);
    assert InBox([a, b, c, i], e);
    FlatBounds([a, b, c, i], e);
    SplitFlat([a, b, c, i], e);
    MapSize(d, total);
    AtomIndexClosedForm(d, total, a, b, c, i);
    AtomIndexClosedForm(d, total, a, b, c, 0);
  }

  /** Every supercell position holds some in-range (cell, atom) pair: the one `Decompose` returns. */
  lemma AtomIndexOnto(d: Dims, total: nat, k: int)
    requires DimsValid(d) && total >= 1 && 0 <= k < SupercellAtoms(d, total)
    ensures exists a, b, c, i :: InCells(d, a, b, c) && 0 <= i < total && AtomIndex(d, total, a, b, c, i) == k
  {
    var e := MapExtents(d, total);
    MapSize(d, total);
    SplitBounds(k, e);
    var p := Split(k, e);
    assert p == [p[0], p[1], p[2], p[3]];
    assert AtomIndex(d, total, p[0], p[1], p[2], p[3]) == k;
  }

  /** Distinct in-range pairs map to distinct supercell positions. */
  lemma AtomIndexInjective(d: Dims, total: nat, a: int, b: int, c: int, i: int,
                           a': int, b': int, c': int, i': int)
    requires DimsValid(d) && InCells(d, a, b, c) && 0 <= i < total
    requires InCells(d, a', b', c') && 0 <= i' < total
    requires AtomIndex(d, total, a, b, c, i) == AtomIndex(d, total, a', b', c', i')
    ensures a == a' && b == b' && c == c' && i == i'
  {
    AtomIndexSound(d, total, a, b, c, i);
    AtomIndexSound(d, total, a', b', c', i');
    assert [a, b, c, i][0] == a && [a', b', c', i'][0] == a';
  }

  /**
   The mapping is row-major with the atom index fastest: it is strictly
   increasing in the lexicographic order of `(a, b, c, i)`.
   */
  lemma AtomIndexRowMajor(d: Dims, total: nat, a: int, b: int, c: int, i: int,
                          a': int, b': int, c': int, i': int)
    requires DimsValid(d) && InCells(d, a, b, c) && 0 <= i < total
    requires InCells(d, a', b', c') && 0 <= i' < total
    requires LexLess([a, b, c, i], [a', b', c', i'])
    ensures AtomIndex(d, total, a, b, c, i) < AtomIndex(d, total, a', b', c', i')
  {
    var e := MapExtents(d, total);
    var j :| 0 <= j < 4 && LexLessAt([a, b, c, i], [a', b', c', i'], j);
    assert InBox([a, b, c, i], e) && InBox([a', b', c', i'], e);
    FlatLexMonotone([a, b, c, i], [a', b', c', i'], e, j);
  }
}
