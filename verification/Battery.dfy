/** The simulated battery, over real numbers. */
module Battery {
  datatype Cell = Cell(
    full: real, empty: real, voltage: real, current: real,
    capacity: real, used: real, resistance: real, sagFault: bool, sagTarget: real)
  {
    /** What initialisation sets up and every operation keeps. */
    ghost predicate Valid() {
      && 0.0 <= empty <= full
      && capacity > 0.0
      && 0.0 <= used <= capacity
      && resistance >= 0.0
    }
  }

  datatype Reading = Reading(voltage: real, current: real, pct: nat)

  function Min(x: real, y: real): real {
    if x < y then x else y
  }

  function Max(x: real, y: real): real {
    if x < y then y else x
  }

  /** Milliampere-hours drawn in one step. */
  function Drawn(current: real, dt: real): real {
    current * (dt / 3.6)
  }

  /** The discharge curve: flat in the middle, steep at the ends. */
  function Curve(soc: real): real {
    0.1 + 0.8 * soc + 0.1 * (soc * soc)
  }

  /** The voltage a fraction of the way from empty to full. */
  function Between(empty: real, full: real, fraction: real): real {
    empty + (full - empty) * fraction
  }

  function Drop(current: real, resistance: real): real {
    current * resistance
  }

  function Fraction(used: real, capacity: real): real
    requires capacity > 0.0
  {
    used / capacity
  }

  function StateOfCharge(c: Cell): real
    requires c.capacity > 0.0
  {
    1.0 - Fraction(c.used, c.capacity)
  }

  function OpenCircuit(c: Cell): real
    requires c.capacity > 0.0
  {
    Between(c.empty, c.full, Curve(StateOfCharge(c)))
  }

  function UnderLoad(c: Cell): real
    requires c.capacity > 0.0
  {
    OpenCircuit(c) - Drop(c.current, c.resistance)
  }

  /** The voltage actually reported: a sag fault pulls it toward its target. */
  function Reported(c: Cell, v: real): real {
    if !c.sagFault then v
    else if v > c.sagTarget then v - (v - c.sagTarget) * 0.05
    else c.sagTarget
  }

  function Percent(c: Cell): int
    requires c.capacity > 0.0
  {
    (StateOfCharge(c) * 100.0 + 0.5).Floor
  }

  /** One step of discharge at the present load. */
  function Tick(c: Cell, dt: real): (d: Cell)
    requires c.capacity > 0.0
    ensures d.capacity == c.capacity
  {
    var d := c.(used := Min(c.used + Drawn(c.current, dt), c.capacity));
    d.(voltage := Reported(d, UnderLoad(d)))
  }

  class BatteryModel {
    var full: real
    var empty: real
    var voltage: real
    var current: real
    var capacity: real
    var used: real
    var resistance: real
    var sagFault: bool
    var sagTarget: real

    ghost function State(): Cell
      reads this
    {
      Cell(full, empty, voltage, current, capacity, used, resistance, sagFault, sagTarget)
    }

    constructor (fullVoltage: real, capacityMah: real)
      ensures State() == Cell(fullVoltage, fullVoltage * (9.9 / 12.6), fullVoltage, 5.0,
                              capacityMah, 0.0, 0.05, false, 0.0)
      ensures fullVoltage >= 0.0 && capacityMah > 0.0 ==> State().Valid()
    {
      full := fullVoltage;
      empty := fullVoltage * (9.9 / 12.6);
      voltage := fullVoltage;
      current := 5.0;
      capacity := capacityMah;
      used := 0.0;
      resistance := 0.05;
      sagFault := false;
      sagTarget := 0.0;
      new;
      if fullVoltage >= 0.0 {
        MulAtMost(9.9 / 12.6, 1.0, fullVoltage);
      }
    }

    method SetLoad(amps: real)
      modifies this`current
      ensures State() == old(State()).(current := amps)
    {
      current := amps;
    }

    method SetSag(active: bool, target: real)
      modifies this`sagFault, this`sagTarget
      ensures State() == old(State()).(sagFault := active, sagTarget := target)
    {
      sagFault := active;
      sagTarget := target;
    }

    /**
      One tick.  The source checks neither the load nor the step; what it needs is a capacity to
      divide by and a percentage that its eight-bit conversion can represent, which every drain
      of a valid cell has.
      */
    method Step(dt: real) returns (r: Reading)
      requires capacity > 0.0 && Percent(Tick(State(), dt)) < 256
      modifies this`used, this`voltage
      ensures State() == Tick(old(State()), dt)
      ensures r.voltage == voltage && r.current == current
      ensures r.pct == if Percent(State()) > 100 then 100 else Percent(State())
      ensures old(State().Valid() && current >= 0.0) && dt >= 0.0 ==> State().Valid() && r.pct == Percent(State())
    {
      hide Drawn, Curve, Between, Drop, Fraction;
      ghost var before := State();
      used := used + Drawn(current, dt);
      if used > capacity {
        used := capacity;
      }
      NotBelowEmpty(State());
      if before.Valid() && current >= 0.0 && dt >= 0.0 {
        DrawnNonNegative(current, dt);
        ChargeInRange(State());
      }
      var soc := 1.0 - Fraction(used, capacity);
      var ocv := Between(empty, full, Curve(soc));
      var v := ocv - Drop(current, resistance);
      ghost var cell := State();
      ghost var unsagged := v;
      assert v == UnderLoad(cell) && soc == StateOfCharge(cell);
      if sagFault {
        if v > sagTarget {
          v := v - (v - sagTarget) * 0.05;
        }
        if v < sagTarget {
          v := sagTarget;
        }
      }
      assert v == Reported(cell, unsagged);
      voltage := v;
      var pct := (soc * 100.0 + 0.5).Floor;
      if pct > 100 {
        pct := 100;
      }
      r := Reading(v, current, pct);
    }
  }

  // ----- One step -----

  lemma ChargeInRange(c: Cell)
    requires c.Valid()
    ensures 0.0 <= StateOfCharge(c) <= 1.0
    ensures 0 <= Percent(c) <= 100
  {
    hide Fraction;
    FractionRises(0.0, c.used, c.capacity);
    FractionRises(c.used, c.capacity, c.capacity);
    WholeFraction(c.capacity);
  }

  lemma NotBelowEmpty(c: Cell)
    requires c.capacity > 0.0 && c.used <= c.capacity
    ensures StateOfCharge(c) >= 0.0 && Percent(c) >= 0
  {
    hide Fraction;
    FractionRises(c.used, c.capacity, c.capacity);
    WholeFraction(c.capacity);
  }

  lemma WholeFraction(k: real)
    requires k > 0.0
    ensures Fraction(k, k) == 1.0 && Fraction(0.0, k) == 0.0
  {
  }

  /** Draining a valid cell always leaves a percentage that can be reported. */
  lemma DrainIsReportable(c: Cell, dt: real)
    requires c.Valid() && c.current >= 0.0 && dt >= 0.0
    ensures Tick(c, dt).Valid() && 0 <= Percent(Tick(c, dt)) <= 100
  {
    hide Percent, Reported, UnderLoad;
    TickValid(c, dt);
    ChargeInRange(Tick(c, dt));
  }

  lemma MulLess(x: real, y: real, k: real)
    requires x < y && k > 0.0
    ensures x * k < y * k
  {
  }

  lemma MulAtMost(x: real, y: real, k: real)
    requires x <= y && k >= 0.0
    ensures x * k <= y * k
  {
  }

  lemma CurveRises(s: real, t: real)
    requires 0.0 <= s <= t <= 1.0
    ensures 0.1 <= Curve(s) <= Curve(t) <= 1.0
  {
    MulAtMost(s, t, s);
    MulAtMost(s, t, t);
    MulAtMost(t, 1.0, t);
  }

  lemma BetweenRises(empty: real, full: real, f: real, g: real)
    requires empty <= full && f <= g
    ensures Between(empty, full, f) <= Between(empty, full, g)
  {
    MulAtMost(f, g, full - empty);
  }

  /** The open-circuit voltage stays in the upper nine tenths of the cell's range. */
  lemma OpenCircuitBounds(c: Cell)
    requires c.Valid()
    ensures Between(c.empty, c.full, 0.1) <= OpenCircuit(c) <= c.full
    ensures Between(c.empty, c.full, 0.1) == c.empty + 0.1 * (c.full - c.empty)
  {
    hide Curve;
    ChargeInRange(c);
    var f := Curve(StateOfCharge(c));
    CurveRises(StateOfCharge(c), StateOfCharge(c));
    BetweenRises(c.empty, c.full, 0.1, f);
    BetweenRises(c.empty, c.full, f, 1.0);
    assert Between(c.empty, c.full, 1.0) == c.full;
  }

  lemma FractionRises(x: real, y: real, k: real)
    requires x <= y && k > 0.0
    ensures Fraction(x, k) <= Fraction(y, k)
  {
    var p, q := x / k, y / k;
    assert p * k == x && q * k == y;
    if q < p {
      MulLess(q, p, k);
    }
  }

  /** More charge used means neither a higher voltage nor a higher percentage. */
  lemma UsedLowersVoltage(c: Cell, d: Cell)
    requires c.Valid() && d.Valid() && c.used <= d.used
    requires d == c.(used := d.used, voltage := d.voltage)
    ensures UnderLoad(d) <= UnderLoad(c) && Percent(d) <= Percent(c)
  {
    hide Curve, Between, Drop, Fraction;
    FractionRises(c.used, d.used, c.capacity);
    ChargeInRange(c);
    ChargeInRange(d);
    CurveRises(StateOfCharge(d), StateOfCharge(c));
    BetweenRises(c.empty, c.full, Curve(StateOfCharge(d)), Curve(StateOfCharge(c)));
  }

  /** A sag fault always reports something between the unsagged voltage and its target. */
  lemma SagBetween(c: Cell, v: real)
    ensures Min(v, c.sagTarget) <= Reported(c.(sagFault := true), v) <= Max(v, c.sagTarget)
  {
  }

  // ----- Whole discharges -----

  /** A stretch of operation at one load. */
  datatype Stretch = Stretch(current: real, dt: real)

  function Total(steps: seq<Stretch>): real {
    if steps == [] then 0.0
    else Total(steps[..|steps| - 1]) + Drawn(steps[|steps| - 1].current, steps[|steps| - 1].dt)
  }

  ghost predicate Draining(steps: seq<Stretch>) {
    forall i :: 0 <= i < |steps| ==> steps[i].current >= 0.0 && steps[i].dt >= 0.0
  }

  lemma DrawnNonNegative(current: real, dt: real)
    requires current >= 0.0 && dt >= 0.0
    ensures Drawn(current, dt) >= 0.0
  {
  }

  lemma TickValid(c: Cell, dt: real)
    requires c.Valid() && c.current >= 0.0 && dt >= 0.0
    ensures Tick(c, dt).Valid() && Tick(c, dt).used >= c.used
  {
    DrawnNonNegative(c.current, dt);
  }

  function Discharged(c: Cell, steps: seq<Stretch>): (d: Cell)
    requires c.Valid() && Draining(steps)
    ensures d.Valid()
    ensures d.full == c.full && d.empty == c.empty && d.capacity == c.capacity
  {
    if steps == [] then c
    else
      var before := Discharged(c, steps[..|steps| - 1]);
      var last := steps[|steps| - 1];
      TickValid(before.(current := last.current), last.dt);
      Tick(before.(current := last.current), last.dt)
  }

  /** Charge is conserved: what is used is what was drawn, until the cell is empty. */
  lemma {:induction false} UsedIsDrawn(c: Cell, steps: seq<Stretch>)
    requires c.Valid() && Draining(steps)
    ensures Total(steps) >= 0.0
    ensures Discharged(c, steps).used == Min(c.used + Total(steps), c.capacity)
  {
    hide Drawn, Reported, UnderLoad;
    if steps != [] {
      var last := steps[|steps| - 1];
      UsedIsDrawn(c, steps[..|steps| - 1]);
      DrawnNonNegative(last.current, last.dt);
    }
  }

  function Constant(current: real, dt: real, n: nat): (steps: seq<Stretch>)
    ensures |steps| == n
    ensures forall i :: 0 <= i < n ==> steps[i] == Stretch(current, dt)
  {
    seq(n, _ => Stretch(current, dt))
  }

  function Times(n: nat, x: real): real {
    (n as real) * x
  }

  lemma {:induction false} ConstantTotal(current: real, dt: real, n: nat)
    ensures Total(Constant(current, dt, n)) == Times(n, Drawn(current, dt))
  {
    hide Drawn;
    if n > 0 {
      assert Constant(current, dt, n)[..n - 1] == Constant(current, dt, n - 1);
      ConstantTotal(current, dt, n - 1);
      TimesNext(n - 1, Drawn(current, dt));
    }
  }

  lemma TimesNext(n: nat, x: real)
    ensures Times(n + 1, x) == Times(n, x) + x
  {
    assert ((n + 1) as real) == (n as real) + 1.0;
  }

  lemma TimesRises(m: nat, n: nat, x: real)
    requires m <= n && x >= 0.0
    ensures Times(m, x) <= Times(n, x)
  {
    MulAtMost(m as real, n as real, x);
  }

  /** Under a constant load, n steps use n times one step's charge, up to the capacity. */
  lemma ConstantLoad(c: Cell, current: real, dt: real, n: nat)
    requires c.Valid() && current >= 0.0 && dt >= 0.0
    ensures Draining(Constant(current, dt, n))
    ensures Discharged(c, Constant(current, dt, n)).used
         == Min(c.used + Times(n, Drawn(current, dt)), c.capacity)
  {
    hide Drawn, Discharged, Total, Times;
    UsedIsDrawn(c, Constant(current, dt, n));
    ConstantTotal(current, dt, n);
  }

  /** Under a constant load neither the unsagged voltage nor the percentage ever rises. */
  lemma NeverRises(c: Cell, current: real, dt: real, m: nat, n: nat)
    requires c.Valid() && c.current == current >= 0.0 && dt >= 0.0 && m <= n
    ensures Draining(Constant(current, dt, m)) && Draining(Constant(current, dt, n))
    ensures var x, y := Discharged(c, Constant(current, dt, m)), Discharged(c, Constant(current, dt, n));
      UnderLoad(y) <= UnderLoad(x) && 0 <= Percent(y) <= Percent(x) <= 100
  {
    hide Drawn, Discharged, Total, UnderLoad, Percent, StateOfCharge, Times;
    ConstantLoad(c, current, dt, m);
    ConstantLoad(c, current, dt, n);
    DrawnNonNegative(current, dt);
    var p, q := Times(m, Drawn(current, dt)), Times(n, Drawn(current, dt));
    assert p <= q by {
      TimesRises(m, n, Drawn(current, dt));
    }
    assert Min(c.used + p, c.capacity) <= Min(c.used + q, c.capacity);
    OnlyUsedChanges(c, current, dt, m);
    OnlyUsedChanges(c, current, dt, n);
    var x, y := Discharged(c, Constant(current, dt, m)), Discharged(c, Constant(current, dt, n));
    UsedLowersVoltage(x, y);
    ChargeInRange(x);
    ChargeInRange(y);
  }

  lemma {:induction false} OnlyUsedChanges(c: Cell, current: real, dt: real, n: nat)
    requires c.Valid() && c.current == current >= 0.0 && dt >= 0.0
    ensures Draining(Constant(current, dt, n))
    ensures var d := Discharged(c, Constant(current, dt, n));
      d == c.(used := d.used, voltage := d.voltage)
  {
    if n > 0 {
      assert Constant(current, dt, n)[..n - 1] == Constant(current, dt, n - 1);
      OnlyUsedChanges(c, current, dt, n - 1);
    }
  }

  // ----- In numbers -----

  lemma Quotient(n: nat, current: real, dt: real)
    ensures Times(n, Drawn(current, dt)) == (n as real) * current * dt / 3.6
  {
    var x := n as real;
    assert dt / 3.6 == dt * (1.0 / 3.6);
    assert x * (current * (dt * (1.0 / 3.6))) == x * current * dt * (1.0 / 3.6);
  }

  /** The closed form written out: amperes times seconds over 3.6, n times over, up to the capacity. */
  lemma ChargeInNumbers(c: Cell, current: real, dt: real, n: nat)
    requires c.Valid() && current >= 0.0 && dt >= 0.0
    ensures Draining(Constant(current, dt, n))
    ensures Discharged(c, Constant(current, dt, n)).used
         == Min(c.used + (n as real) * current * dt / 3.6, c.capacity)
  {
    hide Times, Drawn, Discharged;
    ConstantLoad(c, current, dt, n);
    Quotient(n, current, dt);
  }

  /** One step, at any load, with every constant and the discharge curve written out. */
  lemma TickInNumbers(c: Cell, dt: real)
    requires c.capacity > 0.0
    ensures
      var d := Tick(c, dt);
      var sum := c.used + c.current * dt / 3.6;
      var soc := 1.0 - d.used / c.capacity;
      var v := c.empty + (c.full - c.empty) * (0.1 + 0.8 * soc + 0.1 * soc * soc) - c.current * c.resistance;
      && d == c.(used := d.used, voltage := d.voltage)
      && d.used == (if sum > c.capacity then c.capacity else sum)
      && (!c.sagFault ==> d.voltage == v)
      && (c.sagFault && v > c.sagTarget ==> d.voltage - c.sagTarget == 0.95 * (v - c.sagTarget))
      && (c.sagFault && v <= c.sagTarget ==> d.voltage == c.sagTarget)
  {
    hide Drawn, Curve, Drop;
    var d := Tick(c, dt);
    StepInNumbers(c.current, dt);
    CurveInNumbers(StateOfCharge(d));
    DropInNumbers(c.current, c.resistance);
    assert Fraction(d.used, c.capacity) == d.used / c.capacity;
    assert Between(c.empty, c.full, Curve(StateOfCharge(d)))
        == c.empty + (c.full - c.empty) * Curve(StateOfCharge(d));
    SagInNumbers(d, UnderLoad(d));
  }

  lemma StepInNumbers(current: real, dt: real)
    ensures Drawn(current, dt) == current * dt / 3.6
  {
    assert dt / 3.6 == dt * (1.0 / 3.6);
  }

  lemma CurveInNumbers(soc: real)
    ensures Curve(soc) == 0.1 + 0.8 * soc + 0.1 * soc * soc
  {
  }

  lemma DropInNumbers(current: real, resistance: real)
    ensures Drop(current, resistance) == current * resistance
  {
  }

  lemma SagInNumbers(c: Cell, v: real)
    ensures !c.sagFault ==> Reported(c, v) == v
    ensures c.sagFault && v > c.sagTarget ==> Reported(c, v) - c.sagTarget == 0.95 * (v - c.sagTarget)
    ensures c.sagFault && v <= c.sagTarget ==> Reported(c, v) == c.sagTarget
  {
  }

  /** The percentage is the state of charge rounded to the nearest whole percent, halves up. */
  lemma PercentIsRounded(c: Cell)
    requires c.capacity > 0.0
    ensures var exact := 100.0 * (1.0 - c.used / c.capacity);
      (Percent(c) as real) - 0.5 <= exact < (Percent(c) as real) + 0.5
  {
    assert StateOfCharge(c) == 1.0 - c.used / c.capacity;
  }

  /** A full 12.6 V cell at the initial 5 A reads 12.35 V and 100 percent. */
  lemma FullCellReads(c: Cell)
    requires c == Cell(12.6, 9.9, 12.6, 5.0, 2200.0, 0.0, 0.05, false, 0.0)
    ensures Tick(c, 0.0).voltage == 12.35 && Percent(Tick(c, 0.0)) == 100
  {
    hide Tick, Percent;
    TickInNumbers(c, 0.0);
    PercentIsRounded(Tick(c, 0.0));
  }
}
