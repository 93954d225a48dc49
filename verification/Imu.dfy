/** The simulated IMU; the random draws of one tick are an input. */
module Imu {
  datatype Motion = Motion(ax: real, ay: real, az: real, gx: real, gy: real, gz: real)

  /** One tick's draws: a drift step per gyro axis, then noise per output. */
  datatype Noise = Noise(driftX: real, driftY: real, driftZ: real, output: Motion)

  datatype ImuState = ImuState(
    motion: Motion, driftX: real, driftY: real, driftZ: real, frozen: bool, latched: Motion)

  function WithMotion(s: ImuState, m: Motion): ImuState {
    s.(motion := m)
  }

  /** The true motion is latched only on the way into the frozen state. */
  function Freeze(s: ImuState, freeze: bool): ImuState {
    s.(frozen := freeze, latched := if freeze && !s.frozen then s.motion else s.latched)
  }

  function Sample(s: ImuState, n: Noise): (ImuState, Motion) {
    if s.frozen then (s, s.latched)
    else
      var x, y, z := s.driftX + n.driftX, s.driftY + n.driftY, s.driftZ + n.driftZ;
      (s.(driftX := x, driftY := y, driftZ := z),
       Motion(s.motion.ax + n.output.ax, s.motion.ay + n.output.ay, s.motion.az + n.output.az,
              s.motion.gx + x + n.output.gx, s.motion.gy + y + n.output.gy, s.motion.gz + z + n.output.gz))
  }

  class ImuModel {
    var motion: Motion
    var driftX: real
    var driftY: real
    var driftZ: real
    var frozen: bool
    var latched: Motion

    ghost function State(): ImuState
      reads this
    {
      ImuState(motion, driftX, driftY, driftZ, frozen, latched)
    }

    constructor ()
      ensures State() == ImuState(Motion(0.0, 0.0, 9.81, 0.0, 0.0, 0.0), 0.0, 0.0, 0.0, false,
                                  Motion(0.0, 0.0, 0.0, 0.0, 0.0, 0.0))
    {
      motion := Motion(0.0, 0.0, 9.81, 0.0, 0.0, 0.0);
      driftX, driftY, driftZ := 0.0, 0.0, 0.0;
      frozen := false;
      latched := Motion(0.0, 0.0, 0.0, 0.0, 0.0, 0.0);
    }

    method SetMotion(m: Motion)
      modifies this
      ensures State() == WithMotion(old(State()), m)
    {
      motion := m;
    }

    method SetFrozen(freeze: bool)
      modifies this
      ensures State() == Freeze(old(State()), freeze)
    {
      if freeze && !frozen {
        latched := motion;
      }
      frozen := freeze;
    }

    method Tick(n: Noise) returns (out: Motion)
      modifies this
      ensures (State(), out) == Sample(old(State()), n)
    {
      if frozen {
        return latched;
      }
      driftX := driftX + n.driftX;
      driftY := driftY + n.driftY;
      driftZ := driftZ + n.driftZ;
      out := Motion(motion.ax + n.output.ax, motion.ay + n.output.ay, motion.az + n.output.az,
                    motion.gx + driftX + n.output.gx,
                    motion.gy + driftY + n.output.gy,
                    motion.gz + driftZ + n.output.gz);
    }
  }

  // ----- Runs of samples -----

  /** The accumulated steps of the three gyro drifts. */
  datatype Drift = Drift(x: real, y: real, z: real)

  function Walked(draws: seq<Noise>): Drift {
    if draws == [] then Drift(0.0, 0.0, 0.0)
    else
      var before, last := Walked(draws[..|draws| - 1]), draws[|draws| - 1];
      Drift(before.x + last.driftX, before.y + last.driftY, before.z + last.driftZ)
  }

  function Sampled(s: ImuState, draws: seq<Noise>): ImuState {
    if draws == [] then s else Sample(Sampled(s, draws[..|draws| - 1]), draws[|draws| - 1]).0
  }

  /** Sampling moves nothing but the drifts, and those by the sum of the steps drawn. */
  lemma {:induction false} SamplesWalk(s: ImuState, draws: seq<Noise>)
    requires !s.frozen
    ensures var w := Walked(draws);
      Sampled(s, draws) == s.(driftX := s.driftX + w.x, driftY := s.driftY + w.y, driftZ := s.driftZ + w.z)
  {
    if draws != [] {
      SamplesWalk(s, draws[..|draws| - 1]);
    }
  }

  /**
    After any number of samples an IMU that is not frozen outputs the true motion plus the noise
    of the moment, and on the gyro axes also all drift steps drawn so far, this one's included.
    */
  lemma OutputIsNoisyTruth(s: ImuState, draws: seq<Noise>, now: Noise)
    requires !s.frozen
    ensures
      var out, w, n := Sample(Sampled(s, draws), now).1, Walked(draws + [now]), now.output;
      && out.ax - n.ax == s.motion.ax && out.ay - n.ay == s.motion.ay && out.az - n.az == s.motion.az
      && out.gx - n.gx == s.motion.gx + s.driftX + w.x
      && out.gy - n.gy == s.motion.gy + s.driftY + w.y
      && out.gz - n.gz == s.motion.gz + s.driftZ + w.z
  {
    SamplesWalk(s, draws);
    assert (draws + [now])[..|draws|] == draws;
  }
}
