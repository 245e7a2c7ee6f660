# TrajMaker core in Dafny

TrajMaker builds a synthetic atomic trajectory. It takes a base unit cell and replicates it into an
`nx × ny × nz` supercell. It attaches each atom to oscillation groups, and it writes one frame per
sample time. In each frame, group members are displaced by
`scale * amplitude * sin(2π(frequency·t − phase))`.

This project models the deterministic middle of `scripts/trajmaker.py`:

- **Validation**: the supercell dimensions must all be at least 1, and every atom index of every group
  must lie in `[1, total_atoms]`. Any failure aborts the run before a frame exists.
- **Index mapping**: `np.arange(nx·ny·nz·total).reshape(nx, ny, nz, -1)`, written as the closed form
  `((a·ny+b)·nz+c)·total+i`. It is proved to be a row-major bijection onto `[0, nx·ny·nz·total)`.
- **Override table**: the `parameters` list becomes a dictionary keyed by cell coordinate. The source
  formats that key as `"a-b-c"`; here it is the triple itself. Each value is a dictionary from group name
  to phase and scale. At both levels a later entry replaces an earlier one.
- **Group resolution**: each declared group gets one instance per cell, in group, `a`, `b`, `c` order.
  Amplitude and frequency are copied from the declaration. Phase and scale come from the override table,
  defaulting to zero phase and unit scale.
- **Trajectory evaluation**: sample times follow `np.arange(0, final_time, delta_time)`. Every frame
  starts from the undisplaced supercell positions. Each instance then adds its offset with numpy's
  buffered fancy-index `+=`.

Modules, one file each: `Vectors` (3-vectors), `RowMajor` (row-major enumeration of a box
with any number of axes, used for both the index mapping and the resolution order), `Configuration`
(input datatypes and errors), `Validation`, `IndexMap`, `Overrides`, `Resolution`, `Trajectory` and
`TrajMaker` (the run as a whole).

Parameters and assumptions:

- The sine is a parameter `wave(f, φ, t)` standing for `sin(2π(f·t − φ))` of one component. The model
  therefore fixes which atoms move, by which group and how often, but not the numeric value of the sine.
- The replicated supercell positions (`ase_atoms.copy() * dimensions`) are an input to `TrajMaker.Run`.
  Their length must be `nx·ny·nz·total`. The replication is assumed to list cell `a` outermost, then `b`,
  then `c`, with base atoms fastest. The index mapping is only meaningful under that assumption.
- Every group the bounds check reaches must list at least one index (`np.min` raises on an empty
  list). A group is reached when the dimensions are valid and every earlier group passed; groups after
  the first invalid one may be empty. `delta_time` must be positive whenever the run gets past both
  checks, which is when the source first reads it.
- A group's indices are a list, not a set. Duplicates and order are kept, and the instance's indices
  follow the declared order.
- `final_time = 0` is accepted and yields no frames.

## Model

| member | source | states |
|---|---|---|
| Validation.CheckEach | scripts/trajmaker.py:194-197 | walking the dimensions in order passes iff every one is at least 1; otherwise the outcome is `InvalidDimensions` |
| Validation.CheckDimensions | scripts/trajmaker.py:193-197 | the dimension check passes exactly when `nx, ny, nz ≥ 1`, and fails with `InvalidDimensions` otherwise |
| Validation.Min | scripts/trajmaker.py:214 | `np.min`: the result is an element of the list and no element is below it |
| Validation.Max | scripts/trajmaker.py:214 | `np.max`: the result is an element of the list and no element exceeds it |
| Validation.InBoundsIff | scripts/trajmaker.py:214 | the test `min < 1 or max > total` rejects a group iff some listed index lies outside `[1, total]` |
| Validation.CheckGroupsFrom | scripts/trajmaker.py:212-217 | checking groups from a given position passes iff all later groups are valid; otherwise it names the first invalid one and the atom count |
| Validation.CheckGroups | scripts/trajmaker.py:212-217 | passes iff every group is valid; otherwise names the first invalid group (all earlier ones valid) and the valid range's upper end |
| Validation.OutOfRangeRejected | scripts/trajmaker.py:214-217 | with four base atoms, a group listing atom 5 is rejected as group 0 with range 4 |
| Validation.UnreachedGroupIgnored | scripts/trajmaker.py:212-217 | with four base atoms, groups `[[5], []]` are rejected as group 0 with range 4; the empty group after it is never read |
| RowMajor.Split | scripts/trajmaker.py:207-209 | decomposing a flat position gives coordinates within the inner extents whose row-major position is that flat position |
| RowMajor.Flat4 | scripts/trajmaker.py:207-209 | on four axes the row-major position is the closed form `((i0·n1+i1)·n2+i2)·n3+i3` |
| RowMajor.Size4 | scripts/trajmaker.py:207 | a four-axis box holds `n0·n1·n2·n3` points |
| RowMajor.FlatBounds | scripts/trajmaker.py:207-209 | every in-box point has a row-major position in `[0, size)` |
| RowMajor.FlatLexMonotone | scripts/trajmaker.py:207-209 | positions increase strictly with the lexicographic order of coordinates, last coordinate fastest |
| IndexMap.AtomIndexClosedForm | scripts/trajmaker.py:207-209 | `index_mapping[a, b, c, i]` equals `((a·ny+b)·nz+c)·total+i` |
| IndexMap.MapSize | scripts/trajmaker.py:207 | the reshaped array has exactly `nx·ny·nz·total` entries, one per supercell atom |
| IndexMap.AtomIndexSound | scripts/trajmaker.py:207-209 | each in-range `(a,b,c,i)` maps into `[0, nx·ny·nz·total)`, into cell `(a,b,c)`'s contiguous block, and back to `(a,b,c,i)` |
| IndexMap.AtomIndexOnto | scripts/trajmaker.py:207-209 | every supercell position `k < nx·ny·nz·total` is the image of some in-range `(a,b,c,i)` |
| IndexMap.AtomIndexInjective | scripts/trajmaker.py:207-209 | distinct in-range pairs map to distinct supercell positions |
| IndexMap.AtomIndexRowMajor | scripts/trajmaker.py:207-209 | the mapping is strictly increasing in the lexicographic order of `(a,b,c,i)`, atom index fastest |
| Overrides.FromPairs | scripts/trajmaker.py:198-205 | a dictionary filled by assignment in list order has exactly the listed keys |
| Overrides.FromPairsLastWins | scripts/trajmaker.py:198-205 | the value stored for a key is the one from its last assignment |
| Overrides.GroupTableKeys | scripts/trajmaker.py:201-204 | a cell's dictionary has a name iff some item of that `parameters` entry carries the name |
| Overrides.GroupTableLastWins | scripts/trajmaker.py:201-204 | within one entry, the last item with a name supplies that name's phase and scale |
| Overrides.BuildTableKeys | scripts/trajmaker.py:199-205 | the table has a cell key iff some `parameters` entry names that cell |
| Overrides.BuildTableLastWins | scripts/trajmaker.py:199-205 | the last entry for a cell replaces earlier ones wholesale: the cell's dictionary is built from that entry alone |
| Resolution.Resolve | scripts/trajmaker.py:211-235 | the resolution holds `|groups|·nx·ny·nz` instances, one per group and cell |
| Resolution.ResolveOrder | scripts/trajmaker.py:211-235 | the instance of group `g` in cell `(a,b,c)` is at the row-major position of `(g,a,b,c)`: group outermost, then `a`, `b`, `c` |
| Resolution.ResolvedGroupShape | scripts/trajmaker.py:219-228 | an instance copies amplitude and frequency and keeps the declared indices' length and order; each index lies in its cell's block and maps back to `(a,b,c,i−1)` |
| Resolution.OverrideApplied | scripts/trajmaker.py:229-234 | with the table built at lines 198-205: when the last `parameters` entry for cell `(a+1,b+1,c+1)` lists the group's name, the instance takes phase and scale from the last such listing |
| Resolution.OverrideDefaults | scripts/trajmaker.py:126-138 | without such an override, the instance keeps the fresh group's zero phase and unit scale |
| Resolution.PrunedOverridesIgnored | scripts/trajmaker.py:224-234 | dropping overrides for cells outside the dimensions and for undeclared names leaves the resolution unchanged |
| Resolution.ResolveFits | scripts/trajmaker.py:226 | once every group is valid, every resolved index addresses an atom of the supercell |
| Resolution.SingleCellDefaults | scripts/trajmaker.py:221-235 | a 1×1×1 supercell with one group on atom 1 and no overrides resolves to one instance on atom 0 with zero phase and unit scale |
| Resolution.ResolveCells | scripts/trajmaker.py:221-235 | the three nested cell loops append exactly the instances of one group in `a`, `b`, `c` order |
| Resolution.ResolveGroups | scripts/trajmaker.py:211-235 | the group loop with its interleaved bounds check returns the group check's first-failure error, or exactly the full resolution |
| Trajectory.FrameTimes | scripts/trajmaker.py:241 | sample `k` is `k·dt` and lies below `final_time`; the next sample would not; there are no samples iff `final_time ≤ 0` |
| Trajectory.Samples | scripts/trajmaker.py:241 | `ceil(final/dt)` samples are exactly the `k` with `k·dt < final` |
| Trajectory.FrameTimesExact | scripts/trajmaker.py:241 | a non-negative `k` indexes a frame iff `k·dt < final_time` |
| Trajectory.FrameTimesIncreasing | scripts/trajmaker.py:241 | frame times are strictly increasing |
| Trajectory.FrameTimesExample | scripts/trajmaker.py:241 | `final_time = 1.0`, `delta_time = 0.3` gives frames at 0, 0.3, 0.6, 0.9 |
| Trajectory.ScatterFrom | scripts/trajmaker.py:246-247 | sequential writes of values read from one fixed array copy that array at every listed position and leave the others alone |
| Trajectory.FancyAddOnce | scripts/trajmaker.py:246-247 | buffered `a[idx] += v` adds `v` once to each listed position, however often it is listed, and changes nothing else |
| Trajectory.ApplyGroupsPerAtom | scripts/trajmaker.py:245-247 | the whole-array updates agree with a per-atom reference: atom `j` ends where the groups listing it, applied in order, take it |
| Trajectory.DisplacedSum | scripts/trajmaker.py:245-247 | in the per-atom reference, an atom ends at its start plus the sum of the offsets of the groups listing it |
| Trajectory.ApplyGroupsAdditive | scripts/trajmaker.py:245-247 | after all groups are applied, an atom sits at its base position plus the sum of the offsets of the groups listing it |
| Trajectory.UngroupedAtomStill | scripts/trajmaker.py:245-247 | an atom in no group keeps its base position |
| Trajectory.ApplyGroupsOrderIndependent | scripts/trajmaker.py:245-247 | applying one block of groups before or after another gives the same positions |
| Trajectory.Evaluate | scripts/trajmaker.py:240-249 | one frame per sample time, frame `k` stamped with the `k`-th sample |
| Trajectory.EvaluateFrame | scripts/trajmaker.py:241-249 | in frame `k`, time is `k·dt`, the frame has one position per supercell atom, and atom `j` is where the groups listing it, applied at that time, take its base position |
| Trajectory.EvaluatePrefix | scripts/trajmaker.py:240-249 | frames carry no state: a longer run begins with exactly the frames of a shorter one |
| Trajectory.ZeroAmplitudeStill | scripts/trajmaker.py:243-249 | when every amplitude is zero, every frame equals the undisplaced supercell |
| TrajMaker.Run | scripts/trajmaker.py:186-251 | a bad dimension aborts with `InvalidDimensions`; otherwise the first bad group aborts with `IndexOutOfRange`; the run succeeds iff both checks pass, and then yields the evaluation of the resolved groups |

## Left out

- Command-line parsing, logger setup and the banner (`scripts/trajmaker.py:17-39, 141-172, 255`): these are presentation only.
- Loading the YAML file and the jsonschema validation (`scripts/trajmaker.py:42-123, 174-184`): these are foreign-library calls. The configuration arrives in the shape of the `Configuration` datatypes. That shape is an assumption, not something the schema guarantees.
- Missing configuration keys. The schema has no `required` lists, so a configuration without `parameters`, without a `parameters` entry's `supercell_index` or `groups`, without an override's `name`, `phase` or `scale`, or without a group's `indices`, `amplitude`, `frequency` or `name` passes validation. The source then stops with an uncaught `KeyError` (`scripts/trajmaker.py:199, 200, 202, 203, 213, 219-220, 231, 233-234`). A declared group's `name` is read only for a cell that has a table entry (line 231), so a nameless group runs to completion unless some `parameters` entry names one of its cells. The model assumes every such key is present, and every vector has three components.
- Shared override items. Building the table removes each item's `name` in place (`group.pop("name")`, `scripts/trajmaker.py:203`). PyYAML turns an alias (`*g` referring to `&g`) into the same object, so when two `parameters` entries share one `groups` list, the second visit pops a key that is already gone and the run stops with a `KeyError`. `Overrides.BuildTable` fills both cells instead. The model assumes no override item is shared between entries.
- Reading the POSCAR file, writing the XDATCAR file, and ase's supercell replication (`scripts/trajmaker.py:188, 243, 251`): these are external library calls. The replicated positions are an input, and their atom order is an assumption (see above).
- Atom constraints in `set_positions` (`scripts/trajmaker.py:248`): ase applies the structure's constraints by default. A POSCAR with selective-dynamics flags yields fixed atoms, which `copy()` and the replication carry over. Such atoms are written undisplaced, or moved only along their free directions. The model assumes the structure carries no constraints, so `set_positions` is plain assignment. `Trajectory.EvaluateFrame` describes the written positions only under that assumption.
- Floating point: `np.sin`, `np.pi` and the rounding of `np.arange` with fractional steps. Times and positions are exact reals, and the sine is the `wave` parameter.
- The `type(d) != int` test (`scripts/trajmaker.py:195`): dimensions are integers by type.
- An empty index list on a group the bounds check reaches makes `np.min` raise (`scripts/trajmaker.py:214`). Non-empty lists on reached groups are a precondition of `Validation.CheckGroups`, `Resolution.ResolveGroups` and `TrajMaker.Run` rather than invented behaviour. Groups that are never reached, because the dimensions are invalid or an earlier group failed, are not constrained.
- `delta_time = 0` is allowed by the schema but breaks `np.arange`. A positive `delta_time` is a precondition of `TrajMaker.Run` for runs that pass both checks. Runs that abort earlier never read it.
- The override key is the coordinate triple rather than the `"%d-%d-%d"` string. Lookups only ever form keys from positive coordinates, and for those keys two triples give the same string only if they are equal. Stored keys with negative coordinates can never match a lookup either way.
- `Group.__str__`/`__repr__` and `setup.py`: these are debugging and packaging only.
- Logging of the error messages: an error is returned as a tagged `Error` value instead. That value names the offending group's position and the valid range.
