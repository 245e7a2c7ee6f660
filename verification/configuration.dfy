/**
 The already-parsed configuration of one run: the oscillation groups declared
 on the base cell, the supercell dimensions with their per-cell overrides, and
 the evolution parameters. Schema validation of the YAML document is not part
 of this model. The datatypes below are an assumed shape: the schema does not
 require its keys, and every key used here is assumed present.
 */
module Configuration {
  import opened Vectors

  /** An oscillation group as declared on the base cell (indices are 1-based). */
  datatype GroupDef = GroupDef(name: string, indices: seq<int>, amplitude: Vec3, frequency: Vec3)

  /** Supercell dimensions `[nx, ny, nz]`. */
  datatype Dims = Dims(nx: int, ny: int, nz: int)

  /** A supercell-cell coordinate as written in the configuration (1-based). */
  datatype CellKey = CellKey(a: int, b: int, c: int)

  /** One `groups` item of a `parameters` entry. */
  datatype OverrideSpec = OverrideSpec(name: string, phase: Vec3, scale: Vec3)

  /** One `parameters` entry: the overrides of one supercell cell. */
  datatype CellParameters = CellParameters(supercellIndex: CellKey, groups: seq<OverrideSpec>)

  datatype Supercell = Supercell(dimensions: Dims, parameters: seq<CellParameters>)

  datatype Evolution = Evolution(finalTime: real, deltaTime: real)

  datatype Config = Config(groups: seq<GroupDef>, supercell: Supercell, evolution: Evolution)

  /** Why a run aborts. `group` is the position of the offending group, `total` the base-cell atom count. */
  datatype Error =
    | InvalidDimensions
    | IndexOutOfRange(group: nat, total: nat)

  datatype Outcome = Pass | Fail(error: Error)

  datatype Result<T> = Success(value: T) | Failure(error: Error)
}
