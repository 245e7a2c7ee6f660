/**
 The deterministic middle of the trajmaker script, from an already-parsed
 configuration to the list of frames handed to the trajectory writer:
 check the dimensions, build the override table, resolve the groups (checking
 each group's indices as it goes), then evaluate one frame per sample time.

 The replicated supercell positions (`ase_atoms.copy() * dimensions`) come
 from an external routine and are an input here; they are assumed to list
 cell `a` outermost, then `b`, then `c`, base atoms fastest.
 */
module TrajMaker {
  import opened Vectors
  import opened Configuration
  import opened Validation
  import opened IndexMap
  import opened Overrides
  import opened Resolution
  import opened Trajectory

  /**
   One run. A dimension below 1 aborts before anything else; otherwise the
   first group with an index outside `[1, total]` aborts; otherwise the
   frames are the evaluation of the resolved groups at every sample time.
   */
  method Run(cfg: Config, total: nat, supercell: seq<Vec3>, wave: Wave) returns (r: Result<seq<Frame>>)
    requires DimsValid(cfg.supercell.dimensions) && AllIndicesValid(cfg.groups, total) ==> cfg.evolution.deltaTime > 0.0
    requires DimsValid(cfg.supercell.dimensions) ==> ReachedNonEmpty(cfg.groups, total)
    requires DimsValid(cfg.supercell.dimensions) ==> |supercell| == SupercellAtoms(cfg.supercell.dimensions, total)
    ensures !DimsValid(cfg.supercell.dimensions) ==> r == Failure(InvalidDimensions)
    ensures DimsValid(cfg.supercell.dimensions) && !AllIndicesValid(cfg.groups, total) ==>
      r == Failure(CheckGroups(cfg.groups, total).error)
    ensures r.Success? <==> DimsValid(cfg.supercell.dimensions) && AllIndicesValid(cfg.groups, total)
    ensures r.Success? ==>
      var d := cfg.supercell.dimensions;
      var rs := Resolve(cfg.groups, d, total, BuildTable(cfg.supercell.parameters));
      && Fits(rs, |supercell|)
      && r.value == Evaluate(supercell, rs, cfg.evolution.finalTime, cfg.evolution.deltaTime, wave)
  {
    var d := cfg.supercell.dimensions;
    var dimsCheck := CheckDimensions(d);
    if dimsCheck.Fail? {
      return Failure(dimsCheck.error);
    }
    var table := BuildTable(cfg.supercell.parameters);
    var resolved := ResolveGroups(cfg.groups, d, total, table);
    if resolved.Failure? {
      return Failure(resolved.error);
    }
    ResolveFits(cfg.groups, d, total, table);
    var frames := Evaluate(supercell, resolved.value, cfg.evolution.finalTime, cfg.evolution.deltaTime, wave);
    return Success(frames);
  }
}
