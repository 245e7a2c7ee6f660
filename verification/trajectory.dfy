/**
 Trajectory evaluation. Times are sampled as `np.arange(0, final_time,
 delta_time)`; every frame starts from the undisplaced supercell positions,
 and each resolved group in turn adds its offset
 `scale * amplitude * sin(2*pi*(frequency*t - phase))` to its atoms with
 numpy's buffered fancy-index `+=`.

 The sine factor is a parameter `wave(f, phi, t)` standing for
 `sin(2*pi*(f*t - phi))` of one component: the model fixes which atoms move
 and how often, not the floating-point value of the sine.
 */
module Trajectory {
  import opened Vectors
  import opened Resolution

  datatype Frame = Frame(time: real, positions: seq<Vec3>)

  type Wave = (real, real, real) -> real

  /** The displacement one resolved group contributes at time `t`. */
  function Offset(g: ResolvedGroup, t: real, wave: Wave): Vec3 {
    var s := Vec3(wave(g.frequency.x, g.phase.x, t), wave(g.frequency.y, g.phase.y, t), wave(g.frequency.z, g.phase.z, t));
    Mul(Mul(g.scale, g.amplitude), s)
  }

  // ---------------------------------------------------------------- time sampling

  /** The `k`-th sample time. */
  function TimeAt(k: int, dt: real): real {
    k as real * dt
  }

  function Ceil(x: real): (n: int)
    ensures n as real - 1.0 < x <= n as real
  {
    -((-x).Floor)
  }

  /** Length of `np.arange(0, final, dt)`: `ceil(final / dt)`, and no samples when that is not positive. */
  function FrameCount(final: real, dt: real): nat
    requires dt > 0.0
  {
    var n := Ceil(final / dt);
    if n < 0 then 0 else n
  }

  /** The sample times `0, dt, 2*dt, ...`, every one below `final`, stopping at the first that is not. */
  function FrameTimes(final: real, dt: real): (ts: seq<real>)
    requires dt > 0.0
    ensures forall k :: 0 <= k < |ts| ==> ts[k] == TimeAt(k, dt) && ts[k] < final
    ensures TimeAt(|ts|, dt) >= final
    ensures final <= 0.0 <==> |ts| == 0
  {
    var n := FrameCount(final, dt);
    Samples(final, dt, n);
    seq(n, k requires 0 <= k < n => TimeAt(k, dt))
  }

  /** The arithmetic behind `FrameTimes`: `k*dt < final` exactly for `k` below the count. */
  lemma Samples(final: real, dt: real, n: nat)
    requires dt > 0.0 && n == FrameCount(final, dt)
    ensures forall k :: 0 <= k < n ==> TimeAt(k, dt) < final
    ensures TimeAt(n, dt) >= final
    ensures final <= 0.0 <==> n == 0
  {
    var x := final / dt;
    assert final == x * dt;
    forall k | 0 <= k < n
      ensures TimeAt(k, dt) < final
    {
      assert (k as real) < x;
      assert (x - k as real) * dt > 0.0;
    }
    if final > 0.0 {
      assert x > 0.0;
      assert (n as real - x) * dt >= 0.0;
    }
  }

  /** A non-negative `k` is a sample index iff its time `k*dt` lies below `final`. */
  lemma {:induction false} FrameTimesExact(final: real, dt: real, k: nat)
    requires dt > 0.0
    ensures k < |FrameTimes(final, dt)| <==> TimeAt(k, dt) < final
  {
    var ts := FrameTimes(final, dt);
    var n := |ts|;
    if k < n {
      assert ts[k] == TimeAt(k, dt);
    } else if final > 0.0 {
      assert (k as real - n as real) * dt >= 0.0;
    } else {
      assert k as real * dt >= 0.0;
    }
  }

  /** Frames come out in strictly increasing time order. */
  lemma {:induction false} FrameTimesIncreasing(final: real, dt: real, i: int, j: int)
    requires dt > 0.0 && 0 <= i < j < |FrameTimes(final, dt)|
    ensures FrameTimes(final, dt)[i] < FrameTimes(final, dt)[j]
  {
    var ts := FrameTimes(final, dt);
    assert ts[i] == TimeAt(i, dt) && ts[j] == TimeAt(j, dt);
    assert (j as real - i as real) * dt > 0.0;
  }

  /** With `final_time = 1.0` and `delta_time = 0.3` there are four frames, at 0, 0.3, 0.6 and 0.9. */
  lemma FrameTimesExample()
    ensures FrameTimes(1.0, 0.3) == [0.0, 0.3, 0.6, 0.9]
  {
    assert Ceil(1.0 / 0.3) == 4;
  }

  // ---------------------------------------------------------------- buffered fancy-index update

  /** numpy `a[idx] = vals`: the writes happen in order, so a later write to a position wins. */
  function Scatter(pos: seq<Vec3>, idx: seq<int>, vals: seq<Vec3>): (r: seq<Vec3>)
    requires |idx| == |vals| && IndicesIn(idx, |pos|)
    ensures |r| == |pos|
    decreases |idx|
  {
    if |idx| == 0 then pos
    else Scatter(pos[idx[0] := vals[0]], idx[1..], vals[1..])
  }

  /**
   numpy `a[idx] += v`: the right-hand side `a[idx] + v` is gathered into a
   buffer from the unmodified array and then scattered back.
   */
  function FancyAddAssign(pos: seq<Vec3>, idx: seq<int>, v: Vec3): (r: seq<Vec3>)
    requires IndicesIn(idx, |pos|)
    ensures |r| == |pos|
  {
    Scatter(pos, idx, seq(|idx|, k requires 0 <= k < |idx| => Add(pos[idx[k]], v)))
  }

  /** Scattering values that are all read from one fixed array `target` copies `target` at the listed positions. */
  lemma {:induction false} ScatterFrom(pos: seq<Vec3>, idx: seq<int>, vals: seq<Vec3>, target: seq<Vec3>, j: int)
    requires |idx| == |vals| && IndicesIn(idx, |pos|) && |target| == |pos| && 0 <= j < |pos|
    requires forall k :: 0 <= k < |idx| ==> vals[k] == target[idx[k]]
    ensures Scatter(pos, idx, vals)[j] == if j in idx then target[j] else pos[j]
    decreases |idx|
  {
    if |idx| > 0 {
      var pos' := pos[idx[0] := vals[0]];
      ScatterFrom(pos', idx[1..], vals[1..], target, j);
      if j !in idx[1..] && j in idx {
        assert j == idx[0];
      }
    }
  }

  /**
   Each listed position gets `v` added exactly once, however often it is
   listed; every other position is unchanged.
   */
  lemma FancyAddOnce(pos: seq<Vec3>, idx: seq<int>, v: Vec3, j: int)
    requires IndicesIn(idx, |pos|) && 0 <= j < |pos|
    ensures FancyAddAssign(pos, idx, v)[j] == if j in idx then Add(pos[j], v) else pos[j]
  {
    var target := seq(|pos|, i requires 0 <= i < |pos| => Add(pos[i], v));
    ScatterFrom(pos, idx, seq(|idx|, k requires 0 <= k < |idx| => Add(pos[idx[k]], v)), target, j);
  }

  // ---------------------------------------------------------------- one frame

  /** The positions at time `t`: apply the groups in order, each with its fancy-index `+=`. */
  function ApplyGroups(pos: seq<Vec3>, rs: seq<ResolvedGroup>, t: real, wave: Wave): (r: seq<Vec3>)
    requires Fits(rs, |pos|)
    ensures |r| == |pos|
    decreases |rs|
  {
    if |rs| == 0 then pos
    else ApplyGroups(FancyAddAssign(pos, rs[0].indices, Offset(rs[0], t, wave)), rs[1..], t, wave)
  }

  /** Sum of the offsets of the groups that list atom `j` (each group counted once). */
  function TotalOffset(rs: seq<ResolvedGroup>, j: int, t: real, wave: Wave): Vec3 {
    if |rs| == 0 then Zero
    else Add(if j in rs[0].indices then Offset(rs[0], t, wave) else Zero, TotalOffset(rs[1..], j, t, wave))
  }

  /**
   Reference model of one atom: starting from `p`, every group that lists
   atom `j` adds its offset, in group order.
   */
  function Displaced(p: Vec3, rs: seq<ResolvedGroup>, j: int, t: real, wave: Wave): Vec3
    decreases |rs|
  {
    if |rs| == 0 then p
    else Displaced(if j in rs[0].indices then Add(p, Offset(rs[0], t, wave)) else p, rs[1..], j, t, wave)
  }

  lemma FitsTail(rs: seq<ResolvedGroup>, n: int)
    requires Fits(rs, n) && |rs| > 0
    ensures Fits(rs[1..], n)
  {
    forall g | 0 <= g < |rs[1..]| ensures IndicesIn(rs[1..][g].indices, n) {
      assert rs[1..][g] == rs[g + 1];
    }
  }

  /**
   The whole-array updates agree with the per-atom model: after all groups,
   atom `j` is where its own sequence of offsets takes it.
   */
  lemma {:induction false} ApplyGroupsPerAtom(pos: seq<Vec3>, rs: seq<ResolvedGroup>, t: real, wave: Wave, j: int)
    requires Fits(rs, |pos|) && 0 <= j < |pos|
    ensures ApplyGroups(pos, rs, t, wave)[j] == Displaced(pos[j], rs, j, t, wave)
    decreases |rs|
  {
    if |rs| > 0 {
      var pos' := FancyAddAssign(pos, rs[0].indices, Offset(rs[0], t, wave));
      FancyAddOnce(pos, rs[0].indices, Offset(rs[0], t, wave), j);
      FitsTail(rs, |pos|);
      ApplyGroupsPerAtom(pos', rs[1..], t, wave, j);
    }
  }

  /** The per-atom model adds up: the atom ends at its start plus the sum of its groups' offsets. */
  lemma {:induction false} DisplacedSum(p: Vec3, rs: seq<ResolvedGroup>, j: int, t: real, wave: Wave)
    ensures Displaced(p, rs, j, t, wave) == Add(p, TotalOffset(rs, j, t, wave))
    decreases |rs|
  {
    if |rs| > 0 {
      var o := if j in rs[0].indices then Offset(rs[0], t, wave) else Zero;
      var p' := if j in rs[0].indices then Add(p, Offset(rs[0], t, wave)) else p;
      AddZero(p);
      assert p' == Add(p, o);
      DisplacedSum(p', rs[1..], j, t, wave);
      AddAssoc(p, o, TotalOffset(rs[1..], j, t, wave));
    } else {
      AddZero(p);
    }
  }

  /** Additivity: an atom ends at its base position plus the sum of the offsets of the groups it belongs to. */
  lemma ApplyGroupsAdditive(pos: seq<Vec3>, rs: seq<ResolvedGroup>, t: real, wave: Wave, j: int)
    requires Fits(rs, |pos|) && 0 <= j < |pos|
    ensures ApplyGroups(pos, rs, t, wave)[j] == Add(pos[j], TotalOffset(rs, j, t, wave))
  {
    ApplyGroupsPerAtom(pos, rs, t, wave, j);
    DisplacedSum(pos[j], rs, j, t, wave);
  }

  /** An atom listed by no group keeps its base position. */
  lemma UngroupedAtomStill(pos: seq<Vec3>, rs: seq<ResolvedGroup>, t: real, wave: Wave, j: int)
    requires Fits(rs, |pos|) && 0 <= j < |pos|
    requires forall g :: 0 <= g < |rs| ==> j !in rs[g].indices
    ensures ApplyGroups(pos, rs, t, wave)[j] == pos[j]
  {
    ApplyGroupsAdditive(pos, rs, t, wave, j);
    NoGroupNoOffset(rs, t, wave, j);
    AddZero(pos[j]);
  }

  lemma {:induction false} NoGroupNoOffset(rs: seq<ResolvedGroup>, t: real, wave: Wave, j: int)
    requires forall g :: 0 <= g < |rs| ==> j !in rs[g].indices
    ensures TotalOffset(rs, j, t, wave) == Zero
  {
    if |rs| > 0 {
      assert forall g :: 0 <= g < |rs[1..]| ==> rs[1..][g] == rs[g + 1];
      NoGroupNoOffset(rs[1..], t, wave, j);
      AddZero(Zero);
    }
  }

  lemma {:induction false} TotalOffsetConcat(rs1: seq<ResolvedGroup>, rs2: seq<ResolvedGroup>, j: int, t: real, wave: Wave)
    ensures TotalOffset(rs1 + rs2, j, t, wave) == Add(TotalOffset(rs1, j, t, wave), TotalOffset(rs2, j, t, wave))
  {
    if |rs1| > 0 {
      assert (rs1 + rs2)[0] == rs1[0];
      assert (rs1 + rs2)[1..] == rs1[1..] + rs2;
      TotalOffsetConcat(rs1[1..], rs2, j, t, wave);
      var o := if j in rs1[0].indices then Offset(rs1[0], t, wave) else Zero;
      AddAssoc(o, TotalOffset(rs1[1..], j, t, wave), TotalOffset(rs2, j, t, wave));
    } else {
      assert rs1 + rs2 == rs2;
      AddZero(TotalOffset(rs2, j, t, wave));
    }
  }

  /** Applying one block of groups before or after another gives the same frame. */
  lemma ApplyGroupsOrderIndependent(pos: seq<Vec3>, rs1: seq<ResolvedGroup>, rs2: seq<ResolvedGroup>, t: real, wave: Wave)
    requires Fits(rs1, |pos|) && Fits(rs2, |pos|)
    ensures ApplyGroups(pos, rs1 + rs2, t, wave) == ApplyGroups(pos, rs2 + rs1, t, wave)
  {
    var r12, r21 := ApplyGroups(pos, rs1 + rs2, t, wave), ApplyGroups(pos, rs2 + rs1, t, wave);
    forall j | 0 <= j < |pos|
      ensures r12[j] == r21[j]
    {
      ApplyGroupsAdditive(pos, rs1 + rs2, t, wave, j);
      ApplyGroupsAdditive(pos, rs2 + rs1, t, wave, j);
      TotalOffsetConcat(rs1, rs2, j, t, wave);
      TotalOffsetConcat(rs2, rs1, j, t, wave);
    }
  }

  // ---------------------------------------------------------------- the trajectory

  /** One frame per sample time, each displaced from the same base positions. */
  function Evaluate(supercell: seq<Vec3>, rs: seq<ResolvedGroup>, final: real, dt: real, wave: Wave): (frames: seq<Frame>)
    requires dt > 0.0 && Fits(rs, |supercell|)
    ensures |frames| == |FrameTimes(final, dt)|
    ensures forall k :: 0 <= k < |frames| ==> frames[k].time == FrameTimes(final, dt)[k]
  {
    var ts := FrameTimes(final, dt);
    seq(|ts|, k requires 0 <= k < |ts| => Frame(ts[k], ApplyGroups(supercell, rs, ts[k], wave)))
  }

  /**
   Within every frame, atom `j` sits where the groups that list it, applied
   in order at that frame's time, take its base position.
   */
  lemma EvaluateFrame(supercell: seq<Vec3>, rs: seq<ResolvedGroup>, final: real, dt: real, wave: Wave, k: int, j: int)
    requires dt > 0.0 && Fits(rs, |supercell|)
    requires 0 <= k < |Evaluate(supercell, rs, final, dt, wave)| && 0 <= j < |supercell|
    ensures var f := Evaluate(supercell, rs, final, dt, wave)[k];
      && f.time == TimeAt(k, dt)
      && |f.positions| == |supercell|
      && f.positions[j] == Displaced(supercell[j], rs, j, f.time, wave)
  {
    var f := Evaluate(supercell, rs, final, dt, wave)[k];
    ApplyGroupsPerAtom(supercell, rs, f.time, wave, j);
  }

  /**
   Frames carry no state from one to the next: a run to a later final time
   produces the same frames as a shorter run, followed by more.
   */
  lemma EvaluatePrefix(supercell: seq<Vec3>, rs: seq<ResolvedGroup>, final: real, final': real, dt: real, wave: Wave)
    requires dt > 0.0 && Fits(rs, |supercell|) && final <= final'
    ensures var short, long := Evaluate(supercell, rs, final, dt, wave), Evaluate(supercell, rs, final', dt, wave);
      |short| <= |long| && short == long[..|short|]
  {
  }

  /** With every amplitude zero, every frame is the undisplaced supercell. */
  lemma ZeroAmplitudeStill(supercell: seq<Vec3>, rs: seq<ResolvedGroup>, final: real, dt: real, wave: Wave)
    requires dt > 0.0 && Fits(rs, |supercell|)
    requires forall g :: 0 <= g < |rs| ==> rs[g].amplitude == Zero
    ensures forall k :: 0 <= k < |Evaluate(supercell, rs, final, dt, wave)| ==>
      Evaluate(supercell, rs, final, dt, wave)[k].positions == supercell
  {
    var frames := Evaluate(supercell, rs, final, dt, wave);
    forall k | 0 <= k < |frames|
      ensures frames[k].positions == supercell
    {
      var t := frames[k].time;
      var ps := ApplyGroups(supercell, rs, t, wave);
      assert frames[k].positions == ps;
      forall j | 0 <= j < |supercell|
        ensures ps[j] == supercell[j]
      {
        ApplyGroupsAdditive(supercell, rs, t, wave, j);
        ZeroAmplitudeNoOffset(rs, t, wave, j);
        AddZero(supercell[j]);
      }
    }
  }

  lemma {:induction false} ZeroAmplitudeNoOffset(rs: seq<ResolvedGroup>, t: real, wave: Wave, j: int)
    requires forall g :: 0 <= g < |rs| ==> rs[g].amplitude == Zero
    ensures TotalOffset(rs, j, t, wave) == Zero
  {
    if |rs| > 0 {
      assert forall g :: 0 <= g < |rs[1..]| ==> rs[1..][g] == rs[g + 1];
      ZeroAmplitudeNoOffset(rs[1..], t, wave, j);
      var s := Vec3(wave(rs[0].frequency.x, rs[0].phase.x, t), wave(rs[0].frequency.y, rs[0].phase.y, t), wave(rs[0].frequency.z, rs[0].phase.z, t));
      MulZero(rs[0].scale, s);
      AddZero(Zero);
    }
  }
}
