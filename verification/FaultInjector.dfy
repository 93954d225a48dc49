/**
  The fault injector: eight slots with deadlines on a wrapping 32-bit clock, and effects on the
  sensor models that are recomputed from the active slots at every tick.
  */
module FaultInjector {
  import opened Imu
  import opened Battery

  const SLOTS: nat := 8
  const CLOCK_WRAP: nat := 0x1_0000_0000
  const DEFAULT_SAG: real := 10.0

  datatype FaultType = NONE | GPS_LOSS | SENSOR_FREEZE | BATTERY_SAG | COMMS_DROP | PACKET_CORRUPT

  datatype Fault = Fault(kind: FaultType, active: bool, start: nat, duration: nat, param: real)

  // ----- Slots as values -----

  /** Milliseconds on the clock since `start`, in 32-bit unsigned arithmetic. */
  function Elapsed(now: nat, start: nat): (e: nat)
    ensures e < CLOCK_WRAP
  {
    ((now as int) - (start as int)) % CLOCK_WRAP
  }

  predicate Expires(f: Fault, now: nat) {
    f.active && f.duration > 0 && Elapsed(now, f.start) >= f.duration
  }

  function AfterTick(f: Fault, now: nat): Fault {
    if Expires(f, now) then f.(active := false) else f
  }

  function TickSlots(s: seq<Fault>, now: nat): (t: seq<Fault>)
    ensures |t| == |s|
    ensures forall i :: 0 <= i < |s| ==> t[i] == AfterTick(s[i], now)
  {
    seq(|s|, i requires 0 <= i < |s| => AfterTick(s[i], now))
  }

  predicate Live(f: Fault, kind: FaultType) {
    f.active && f.kind == kind
  }

  /** Some active slot holds this kind of fault. */
  predicate Has(s: seq<Fault>, kind: FaultType) {
    exists i :: 0 <= i < |s| && Live(s[i], kind)
  }

  /** The target of the highest active sag slot. */
  function SagTarget(s: seq<Fault>): real {
    if s == [] then DEFAULT_SAG
    else if Live(s[|s| - 1], BATTERY_SAG) then s[|s| - 1].param
    else SagTarget(s[..|s| - 1])
  }

  /** The first inactive slot, or the number of slots. */
  function FirstFree(s: seq<Fault>): (k: nat)
    ensures k <= |s|
    ensures k < |s| ==> !s[k].active
    ensures forall i :: 0 <= i < k ==> s[i].active
  {
    if s == [] || !s[0].active then 0
    else
      assert forall i :: 0 < i <= FirstFree(s[1..]) && i < |s| ==> s[i] == s[1..][i - 1];
      1 + FirstFree(s[1..])
  }

  function InjectSlots(s: seq<Fault>, kind: FaultType, param: real, duration: nat, now: nat): (t: seq<Fault>)
    ensures |t| == |s|
  {
    var k := FirstFree(s);
    if k < |s| then s[k := Fault(kind, true, now, duration, param)] else s
  }

  function ClearSlot(s: seq<Fault>, slot: int): (t: seq<Fault>)
    ensures |t| == |s|
  {
    if 0 <= slot < |s| then s[slot := s[slot].(active := false, kind := NONE)] else s
  }

  function ClearSlots(s: seq<Fault>): (t: seq<Fault>)
    ensures |t| == |s|
    ensures forall i :: 0 <= i < |s| ==> t[i] == s[i].(active := false)
  {
    seq(|s|, i requires 0 <= i < |s| => s[i].(active := false))
  }

  // ----- The simulator's struct -----

  class GpsModel {
    var signalLost: bool
    var fixQuality: nat
    var satellites: nat

    ghost predicate Shows(lost: bool)
      reads this
    {
      signalLost == lost && fixQuality == (if lost then 0 else 1) && satellites == (if lost then 0 else 8)
    }

    constructor ()
      ensures Shows(false)
    {
      signalLost, fixQuality, satellites := false, 1, 8;
    }

    method SetSignalLost(lost: bool)
      modifies this
      ensures Shows(lost)
      ensures signalLost == lost && fixQuality == (if lost then 0 else 1) && satellites == (if lost then 0 else 8)
    {
      signalLost := lost;
      if lost {
        fixQuality, satellites := 0, 0;
      } else {
        fixQuality, satellites := 1, 8;
      }
    }
  }

  lemma HasNext(s: seq<Fault>, n: nat, kind: FaultType)
    requires n < |s|
    ensures Has(s[..n + 1], kind) <==> Has(s[..n], kind) || Live(s[n], kind)
  {
    var t, u := s[..n], s[..n + 1];
    if Has(t, kind) {
      var i :| 0 <= i < |t| && Live(t[i], kind);
      assert Live(u[i], kind);
    }
    if Live(s[n], kind) {
      assert Live(u[n], kind);
    }
    if Has(u, kind) && !Live(s[n], kind) {
      var i :| 0 <= i < |u| && Live(u[i], kind);
      assert Live(t[i], kind);
    }
  }

  lemma SagNext(s: seq<Fault>, n: nat)
    requires n < |s|
    ensures SagTarget(s[..n + 1]) == if Live(s[n], BATTERY_SAG) then s[n].param else SagTarget(s[..n])
  {
    assert s[..n + 1][..n] == s[..n];
  }

  /** What the accumulators of the tick loop hold after some slots. */
  datatype Effects = Effects(
    gpsLost: bool, imuFrozen: bool, sag: bool, commsDrop: bool, corrupt: bool, sagTarget: real)

  function EffectsOf(s: seq<Fault>): Effects {
    Effects(Has(s, GPS_LOSS), Has(s, SENSOR_FREEZE), Has(s, BATTERY_SAG), Has(s, COMMS_DROP),
            Has(s, PACKET_CORRUPT), SagTarget(s))
  }

  /** The switch on the type of one active slot. */
  function Accumulate(e: Effects, f: Fault): Effects {
    if !f.active then e
    else match f.kind
      case GPS_LOSS => e.(gpsLost := true)
      case SENSOR_FREEZE => e.(imuFrozen := true)
      case BATTERY_SAG => e.(sag := true, sagTarget := f.param)
      case COMMS_DROP => e.(commsDrop := true)
      case PACKET_CORRUPT => e.(corrupt := true)
      case NONE => e
  }

  lemma EffectsNext(s: seq<Fault>, n: nat)
    requires n < |s|
    ensures EffectsOf(s[..n + 1]) == Accumulate(EffectsOf(s[..n]), s[n])
  {
    hide Has, SagTarget;
    HasNext(s, n, GPS_LOSS);
    HasNext(s, n, SENSOR_FREEZE);
    HasNext(s, n, BATTERY_SAG);
    HasNext(s, n, COMMS_DROP);
    HasNext(s, n, PACKET_CORRUPT);
    SagNext(s, n);
  }

  lemma NoEffects()
    ensures EffectsOf([]) == Effects(false, false, false, false, false, DEFAULT_SAG)
  {
  }

  class Injector {
    const slots: array<Fault>
    const imu: ImuModel?
    const gps: GpsModel?
    const battery: BatteryModel?
    var commsDrop: bool
    var packetCorrupt: bool

    ghost predicate Valid()
      reads this
    {
      slots.Length == SLOTS
    }

    constructor (imu: ImuModel?, gps: GpsModel?, battery: BatteryModel?)
      ensures Valid() && fresh(slots) && slots.Length == 8
      ensures forall i :: 0 <= i < SLOTS ==> !slots[i].active
      ensures this.imu == imu && this.gps == gps && this.battery == battery
      ensures !commsDrop && !packetCorrupt
    {
      slots := new Fault[SLOTS](_ => Fault(NONE, false, 0, 0, 0.0));
      this.imu, this.gps, this.battery := imu, gps, battery;
      commsDrop, packetCorrupt := false, false;
    }

    /** Takes the first free slot; fails exactly when all eight are active. */
    method Inject(kind: FaultType, param: real, duration: nat, now: nat) returns (slot: int)
      requires Valid() && now < CLOCK_WRAP && duration < CLOCK_WRAP
      modifies slots
      ensures slots[..] == InjectSlots(old(slots[..]), kind, param, duration, now)
      ensures slot == -1 <==> forall i :: 0 <= i < SLOTS ==> old(slots[i]).active
      ensures slot != -1 ==>
        && 0 <= slot < SLOTS && !old(slots[slot]).active
        && slots[slot] == Fault(kind, true, now, duration, param)
      ensures forall i :: 0 <= i < SLOTS && i != slot ==> slots[i] == old(slots[i])
    {
      for i := 0 to SLOTS
        invariant forall k :: 0 <= k < i ==> slots[k].active
        invariant slots[..] == old(slots[..])
      {
        if !slots[i].active {
          assert FirstFree(slots[..]) == i by { FirstFreeIs(slots[..], i); }
          slots[i] := Fault(kind, true, now, duration, param);
          return i;
        }
      }
      return -1;
    }

    method Clear(slot: int)
      requires Valid()
      modifies slots
      ensures slots[..] == ClearSlot(old(slots[..]), slot)
    {
      if slot < 0 || slot >= SLOTS {
        return;
      }
      slots[slot] := slots[slot].(active := false);
      slots[slot] := slots[slot].(kind := NONE);
    }

    /** Deactivates every slot and returns the models to health at once. */
    method ClearAll()
      requires Valid()
      modifies slots, imu, gps, battery, this`commsDrop, this`packetCorrupt
      ensures slots[..] == ClearSlots(old(slots[..]))
      ensures imu != null ==> imu.State() == Freeze(old(imu.State()), false)
      ensures gps != null ==> gps.Shows(false)
      ensures battery != null ==> battery.State() == old(battery.State()).(sagFault := false, sagTarget := 0.0)
      ensures !commsDrop && !packetCorrupt
    {
      for i := 0 to SLOTS
        modifies slots
        invariant forall k :: 0 <= k < i ==> slots[k] == old(slots[k]).(active := false)
        invariant forall k :: i <= k < SLOTS ==> slots[k] == old(slots[k])
      {
        slots[i] := slots[i].(active := false);
      }
      if imu != null {
        imu.SetFrozen(false);
      }
      if gps != null {
        gps.SetSignalLost(false);
      }
      if battery != null {
        battery.SetSag(false, 0.0);
      }
      commsDrop, packetCorrupt := false, false;
    }

    /** Expires due faults and recomputes every effect from what is left. */
    method Tick(now: nat)
      requires Valid() && now < CLOCK_WRAP
      modifies slots, imu, gps, battery, this`commsDrop, this`packetCorrupt
      ensures slots[..] == TickSlots(old(slots[..]), now)
      ensures imu != null ==> imu.State() == Freeze(old(imu.State()), Has(slots[..], SENSOR_FREEZE))
      ensures gps != null ==> gps.Shows(Has(slots[..], GPS_LOSS))
      ensures battery != null ==> battery.State() == old(battery.State()).(
        sagFault := Has(slots[..], BATTERY_SAG), sagTarget := SagTarget(slots[..]))
      ensures commsDrop == Has(slots[..], COMMS_DROP)
      ensures packetCorrupt == Has(slots[..], PACKET_CORRUPT)
    {
      hide Has, SagTarget, Accumulate, Expires, Freeze;
      var e := ExpireSlots(now);
      if gps != null {
        gps.SetSignalLost(e.gpsLost);
      }
      if imu != null {
        imu.SetFrozen(e.imuFrozen);
      }
      if battery != null {
        battery.SetSag(e.sag, e.sagTarget);
      }
      commsDrop := e.commsDrop;
      packetCorrupt := e.corrupt;
    }

    /** The slot loop of the tick. */
    method ExpireSlots(now: nat) returns (e: Effects)
      requires Valid() && now < CLOCK_WRAP
      modifies slots
      ensures slots[..] == TickSlots(old(slots[..]), now)
      ensures e == EffectsOf(slots[..])
    {
      hide Has, SagTarget, Accumulate, Expires, EffectsOf;
      NoEffects();
      e := Effects(false, false, false, false, false, DEFAULT_SAG);
      assert slots[..0] == [];
      for i := 0 to SLOTS
        invariant forall k :: 0 <= k < i ==> slots[k] == AfterTick(old(slots[k]), now)
        invariant forall k :: i <= k < SLOTS ==> slots[k] == old(slots[k])
        invariant e == EffectsOf(slots[..i])
      {
        ghost var before := slots[..i];
        if Expires(slots[i], now) {
          slots[i] := slots[i].(active := false);
        }
        assert slots[..i] == before;
        EffectsNext(slots[..], i);
        assert slots[..][..i] == slots[..i] && slots[..][..i + 1] == slots[..i + 1];
        e := Accumulate(e, slots[i]);
      }
      assert slots[..SLOTS] == slots[..];
    }

    /** The active-fault bitmask: one bit each for four of the five kinds. */
    method GetFlags() returns (flags: bv8)
      requires Valid()
      ensures flags & 0x01 != 0 <==> Has(slots[..], GPS_LOSS)
      ensures flags & 0x02 != 0 <==> Has(slots[..], SENSOR_FREEZE)
      ensures flags & 0x04 != 0 <==> Has(slots[..], BATTERY_SAG)
      ensures flags & 0x08 != 0 <==> Has(slots[..], COMMS_DROP)
      ensures flags & 0xF0 == 0
    {
      flags := 0;
      for i := 0 to SLOTS
        invariant flags & 0x01 != 0 <==> Has(slots[..i], GPS_LOSS)
        invariant flags & 0x02 != 0 <==> Has(slots[..i], SENSOR_FREEZE)
        invariant flags & 0x04 != 0 <==> Has(slots[..i], BATTERY_SAG)
        invariant flags & 0x08 != 0 <==> Has(slots[..i], COMMS_DROP)
        invariant flags & 0xF0 == 0
      {
        HasNext(slots[..], i, GPS_LOSS);
        if slots[i].active {
          match slots[i].kind {
            case GPS_LOSS => flags := flags | 0x01;
            case SENSOR_FREEZE => flags := flags | 0x02;
            case BATTERY_SAG => flags := flags | 0x04;
            case COMMS_DROP => flags := flags | 0x08;
            case PACKET_CORRUPT =>
            case NONE =>
          }
        }
      }
    }
  }

  lemma FirstFreeIs(s: seq<Fault>, k: nat)
    requires k < |s| && !s[k].active && forall i :: 0 <= i < k ==> s[i].active
    ensures FirstFree(s) == k
  {
  }

  /** With several sags active, the one in the highest slot sets the target. */
  lemma {:induction false} HighestSagWins(s: seq<Fault>, i: nat)
    requires i < |s| && Live(s[i], BATTERY_SAG)
    requires forall j :: i < j < |s| ==> !Live(s[j], BATTERY_SAG)
    ensures SagTarget(s) == s[i].param
  {
    if i < |s| - 1 {
      HighestSagWins(s[..|s| - 1], i);
    }
  }

  /** With no sag active the target is 10 V. */
  lemma {:induction false} NoSagTarget(s: seq<Fault>)
    requires forall i :: 0 <= i < |s| ==> !Live(s[i], BATTERY_SAG)
    ensures SagTarget(s) == 10.0
  {
    if s != [] {
      NoSagTarget(s[..|s| - 1]);
    }
  }

  /** The clock turns over at 2^32 milliseconds: ten pass from five before the turn to five after. */
  lemma ClockTurns()
    ensures Elapsed(5, 0xFFFF_FFFB) == 10 && Elapsed(0xFFFF_FFFB, 5) == 0xFFFF_FFF6
  {
  }

  /** A cleared slot is inactive and empty, and no other slot changes; out of range nothing does. */
  lemma ClearedSlot(s: seq<Fault>, slot: int, i: nat)
    requires i < |s|
    ensures i == slot ==> !ClearSlot(s, slot)[i].active && ClearSlot(s, slot)[i].kind == NONE
    ensures i != slot ==> ClearSlot(s, slot)[i] == s[i]
  {
  }
}
