/** Sharing the input power between lid and base (common/charger_base.c). */
module ChargerBase {
  import opened Arith

  // ----- Shares -----

  /** Two truncated shares of at most D: whatever their signs, they sum to at most D. */
  lemma SharesFit(a: int, b: int, d: int, D: int)
    requires d > 0 && D >= 0 && a + b <= D * d
    ensures TruncDiv(a, d) + TruncDiv(b, d) <= D
  {
    hide TruncDiv;
    TruncDivBounds(a, d);
    TruncDivBounds(b, d);
    if a >= 0 || b >= 0 {
      var p, q := TruncDiv(a, d), TruncDiv(b, d);
      Spread(p, q, d);
      Spread(D, 1, d);
      Cancel(D + 1, p + q, d);
    }
  }

  lemma Spread(p: int, q: int, d: int)
    ensures (p + q) * d == p * d + q * d
  {}

  lemma Cancel(m: int, n: int, d: nat)
    requires m * d > n * d
    ensures m > n
  {
    if n > m {
      MulStrict(n, m, d);
    }
  }

  /** With both shares non-negative at most two units are lost to the truncation. */
  lemma SharesFill(a: nat, b: nat, d: nat, D: int)
    requires d > 0 && a + b > D * d - d
    ensures TruncDiv(a, d) + TruncDiv(b, d) >= D - 2
  {
    hide TruncDiv;
    TruncDivBounds(a, d);
    TruncDivBounds(b, d);
    var p, q := TruncDiv(a, d), TruncDiv(b, d);
    Spread(p, q, d);
    Spread(D, -3, d);
    Cancel(p + q, D - 3, d);
  }

  // ----- Smoothing and margins -----

  /** smooth_value (lines 241-249), s in 1/128. */
  function SmoothValue(prev: int, curr: int, s: nat): int {
    var c := if curr < 0 then 0 else curr;
    if prev < 0 then c else prev + TruncDiv(s * (c - prev), 128)
  }

  /** The smoothed value lies between the old one and the new, s/128 of the way up to rounding,
      and is never negative. */
  lemma SmoothBetween(prev: int, curr: int, s: nat)
    requires s <= 128
    ensures var c := Max(curr, 0);
      var r := SmoothValue(prev, curr, s);
      && r >= 0
      && (if prev < 0 then r == c
          else Min(prev, c) <= r <= Max(prev, c) && -128 < s * (c - prev) - 128 * (r - prev) < 128)
  {
    var c := Max(curr, 0);
    var diff := c - prev;
    TruncDivBounds(s * diff, 128);
    if diff >= 0 {
      MulOrder(s, 128, diff);
    } else {
      MulOrder(s, 128, -diff);
      assert s * diff == -(s * -diff);
    }
  }

  lemma MulOrder(a: nat, b: nat, n: nat)
    requires a <= b
    ensures 0 <= a * n <= b * n
  {
    assert b * n == a * n + (b - a) * n;
  }

  /** add_margin (lines 254-257), m in 1/128. */
  function AddMargin(value: int, m: nat): int {
    value + TruncDiv(m * value, 128)
  }

  lemma MarginGrows(value: int, m: nat)
    ensures value >= 0 ==> value <= AddMargin(value, m)
    ensures value >= 0 ==> 128 * (AddMargin(value, m) - value) <= m * value < 128 * (AddMargin(value, m) - value) + 128
    ensures value == -1 && m < 128 ==> AddMargin(value, m) == -1
  {
    TruncDivBounds(m * value, 128);
    if value >= 0 {
      MulOrder(0, m, value);
    }
  }

  // ----- The allocation -----

  const MIN_BASE_SYSTEM_POWER: nat := 1300
  const LID_SYSTEM_POWER_SMOOTH: nat := 32
  const BATTERY_POWER_SMOOTH: nat := 1
  const MARGIN_BATTERY_POWER: nat := 32
  const MAX_LID_TO_BASE_CURRENT: nat := 2000

  /** CHG_ALLOCATE (lines 113-118). */
  method ChgAllocate(power: int, total: int, value: int) returns (newPower: int, rest: int)
    ensures newPower + rest == power + total
    ensures newPower == power + Min(value, total)
  {
    var capped := Min(value, total);
    return power + capped, total - capped;
  }

  /** The order of the claims: base system, lid system, lid battery, base battery; what is left
      goes to the lid. A claim is served only when all before it were served in full. */
  ghost predicate Prioritized(total: int, lidSystem: int, lidBattery: int, baseBattery: int, base: int, lid: int) {
    && base + lid == total
    && base >= Min(MIN_BASE_SYSTEM_POWER, total)
    && lid >= Min(lidSystem + lidBattery, total - Min(MIN_BASE_SYSTEM_POWER, total))
    && base <= MIN_BASE_SYSTEM_POWER + baseBattery
    && (base > MIN_BASE_SYSTEM_POWER ==> lid >= lidSystem + lidBattery)
    && (lid > lidSystem + lidBattery ==> base == MIN_BASE_SYSTEM_POWER + baseBattery)
  }

  /** Lines 481-498. The sum is exact whatever the estimates are. */
  method AllocatePower(total: int, lidSystem: int, lidBattery: int, baseBattery: int) returns (base: int, lid: int)
    requires total > 0
    ensures base + lid == total
    ensures lidSystem >= 0 && lidBattery >= 0 && baseBattery >= 0 ==>
      base >= 0 && lid >= 0 && Prioritized(total, lidSystem, lidBattery, baseBattery, base, lid)
    ensures lidSystem >= 0 && lidBattery >= 0 && baseBattery >= 0 ==>
      && (total <= 1300 ==> base == total && lid == 0)
      && (1300 < total <= 1300 + lidSystem + lidBattery ==> base == 1300)
      && (1300 + lidSystem + lidBattery < total <= 1300 + lidSystem + lidBattery + baseBattery ==>
            lid == lidSystem + lidBattery)
      && (total > 1300 + lidSystem + lidBattery + baseBattery ==> base == 1300 + baseBattery)
    ensures lidSystem >= 0 && lidBattery >= -1 && baseBattery >= -1 ==> base >= 0 && lid >= -1
  {
    var rest := total;
    base, lid := 0, 0;
    base, rest := ChgAllocate(base, rest, MIN_BASE_SYSTEM_POWER);
    lid, rest := ChgAllocate(lid, rest, lidSystem);
    lid, rest := ChgAllocate(lid, rest, lidBattery);
    base, rest := ChgAllocate(base, rest, baseBattery);
    lid, rest := ChgAllocate(lid, rest, rest);
  }

  /** Lines 503-510. */
  method ToCurrents(base: int, lid: int, voltage: nat) returns (currentBase: int, currentLid: int)
    requires voltage > 0
    ensures currentBase == Min(TruncDiv(1000 * base, voltage), 2000)
    ensures currentBase + currentLid == TruncDiv(1000 * base, voltage) + TruncDiv(1000 * lid, voltage)
    ensures TruncDiv(1000 * base, voltage) >= 0 ==> currentBase >= 0
    ensures TruncDiv(1000 * lid, voltage) >= 0 ==> currentLid >= 0
  {
    currentBase, currentLid := TruncDiv(1000 * base, voltage), TruncDiv(1000 * lid, voltage);
    if currentBase > MAX_LID_TO_BASE_CURRENT {
      currentLid := currentLid + (currentBase - MAX_LID_TO_BASE_CURRENT);
      currentBase := MAX_LID_TO_BASE_CURRENT;
    }
  }

  /** The power drawn at a current of D, shared and converted back. */
  lemma CurrentsFit(base: int, lid: int, desired: nat, voltage: nat)
    requires voltage > 0 && base + lid == desired * voltage / 1000
    ensures TruncDiv(1000 * base, voltage) + TruncDiv(1000 * lid, voltage) <= desired
    ensures base >= 0 && lid >= 0 && voltage >= 1000 ==>
      TruncDiv(1000 * base, voltage) + TruncDiv(1000 * lid, voltage) >= desired - 2
  {
    var total := desired * voltage / 1000;
    MulOrder(0, desired, voltage);
    assert 1000 * base + 1000 * lid == 1000 * total <= desired * voltage < 1000 * total + 1000;
    SharesFit(1000 * base, 1000 * lid, voltage, desired);
    if base >= 0 && lid >= 0 && voltage >= 1000 {
      SharesFill(1000 * base, 1000 * lid, voltage, desired);
    }
  }

  /** What the chargers and batteries report. */
  datatype Readings = Readings(desiredInputCurrent: nat, inputVoltage: nat, systemPower: int,
                               lidPower: int, lidPowerMax: nat, basePower: int, basePowerMax: nat)

  /** The estimate of the power a battery takes. */
  function Estimate(prev: int, power: int, max: nat): int {
    Min(if power < prev then SmoothValue(prev, power, BATTERY_POWER_SMOOTH) else power, max)
  }

  class Allocator {
    var prevBaseBattery: int
    var prevLidSystem: int
    var prevLidBattery: int

    /** Estimates start at -1 and stay above it. */
    ghost predicate Valid()
      reads this
    {
      prevBaseBattery >= -1 && prevLidSystem >= -1 && prevLidBattery >= -1
    }

    constructor ()
      ensures Valid()
    {
      prevBaseBattery, prevLidSystem, prevLidBattery := -1, -1, -1;
    }

    /** One battery (lines 440-452 and 454-465): a falling estimate is smoothed, and capped by
        what the battery asks for. */
    method EstimateBattery(prev: int, power: int, max: nat) returns (estimate: int)
      requires prev >= -1
      ensures estimate == Estimate(prev, power, max) && -1 <= estimate <= max
      ensures power >= prev ==> estimate == Min(power, max)
      ensures 0 <= power < prev ==>
        && Min(power, max) <= estimate <= Min(prev, max)
        && (estimate < max ==> prev - power - 128 < 128 * (prev - estimate) < prev - power + 128)
    {
      estimate := power;
      if estimate < prev {
        SmoothBetween(prev, estimate, BATTERY_POWER_SMOOTH);
        estimate := SmoothValue(prev, estimate, BATTERY_POWER_SMOOTH);
      }
      estimate := Min(estimate, max);
    }

    /** The charging path of base_charge_allocate_input_current_limit (lines 303-306 and
        425-516): the currents never ask for more than the input allows. */
    method Allocate(r: Readings) returns (power: (int, int), currentBase: int, currentLid: int)
      requires Valid() && r.desiredInputCurrent * r.inputVoltage / 1000 > 0
      modifies this
      ensures Valid()
      ensures prevLidSystem == SmoothValue(old(prevLidSystem), r.systemPower, 32)
      ensures prevLidBattery == Estimate(old(prevLidBattery), r.lidPower, r.lidPowerMax)
      ensures prevBaseBattery == Estimate(old(prevBaseBattery), r.basePower, r.basePowerMax)
      ensures prevLidBattery >= 0 && prevBaseBattery >= 0 ==>
        Prioritized(power.0 + power.1, prevLidSystem, AddMargin(prevLidBattery, 32), AddMargin(prevBaseBattery, 32),
                    power.0, power.1)
      ensures power.0 + power.1 == r.desiredInputCurrent * r.inputVoltage / 1000
      ensures power.0 >= 0 && power.1 >= -1
      ensures currentBase + currentLid <= r.desiredInputCurrent
      ensures currentBase == Min(TruncDiv(1000 * power.0, r.inputVoltage), 2000)
      ensures r.inputVoltage >= 1000 && power.1 >= 0 ==> currentBase + currentLid >= r.desiredInputCurrent - 2
      ensures r.inputVoltage > 1000 ==> currentBase >= 0 && currentLid >= 0
    {
      hide TruncDiv, SmoothValue, Estimate, AddMargin, Prioritized;
      var total := r.desiredInputCurrent * r.inputVoltage / 1000;
      assert r.inputVoltage > 0;
      SmoothBetween(prevLidSystem, r.systemPower, LID_SYSTEM_POWER_SMOOTH);
      var lidSystem := SmoothValue(prevLidSystem, r.systemPower, LID_SYSTEM_POWER_SMOOTH);
      prevLidSystem := lidSystem;
      var lidBattery := EstimateBattery(prevLidBattery, r.lidPower, r.lidPowerMax);
      var baseBattery := EstimateBattery(prevBaseBattery, r.basePower, r.basePowerMax);
      prevLidBattery, prevBaseBattery := lidBattery, baseBattery;
      MarginGrows(lidBattery, MARGIN_BATTERY_POWER);
      MarginGrows(baseBattery, MARGIN_BATTERY_POWER);
      var base, lid := AllocatePower(total, lidSystem, AddMargin(lidBattery, MARGIN_BATTERY_POWER),
                                     AddMargin(baseBattery, MARGIN_BATTERY_POWER));
      CurrentsFit(base, lid, r.desiredInputCurrent, r.inputVoltage);
      TruncDivSign(1000 * base, r.inputVoltage);
      TruncDivSign(1000 * lid, r.inputVoltage);
      currentBase, currentLid := ToCurrents(base, lid, r.inputVoltage);
      power := (base, lid);
    }
  }

  // ----- The switch-over -----

  /** What happens to the base and the chargers: plugging, the battery update of each round of the
      charger, a reset of the base (lines 591-593), a switch-over, and the switch-over of a system that is off. */
  datatype Event =
    | Detach
    | Attach(power: bool)
    | Update
    | Reset
    | Switch(base: int, lid: int, baseOk: bool, lidFailAt: nat)
    | SystemOff(baseOk: bool, lidFailAt: nat)

  /** A charger call failed after an earlier one had changed the current of the lid. */
  predicate Partial(e: Event) {
    (e.Switch? && e.lid >= 0 && 1 <= e.lidFailAt <= 2) || (e.SystemOff? && 1 <= e.lidFailAt <= 2)
  }

  class Supplies {
    var responsive: bool
    var prevCurrentBase: int
    var prevCurrentLid: int

    /** The board: whether the base is attached, and its power switch. */
    var connected: bool
    var powered: bool

    /** The currents really set, and every pair of draws the switch-overs went through. */
    ghost var baseSet: int
    ghost var lidDraw: int
    ghost var points: seq<(int, int)>

    /** A base that is detached, or was told nothing since it attached or woke, draws nothing. */
    ghost predicate Valid()
      reads this
    {
      (!connected ==> baseSet == 0) && (!responsive ==> baseSet == 0)
    }

    ghost function BaseDraw(): int
      reads this
    {
      if connected && powered then baseSet else 0
    }

    ghost predicate LidRecorded()
      reads this
    {
      prevCurrentLid == lidDraw
    }

    /** charger_base_setup (lines 645-650). */
    constructor (base: bool, power: bool)
      ensures Valid() && LidRecorded() && BaseDraw() == lidDraw == 0 && points == []
      ensures connected == base && powered == power && !responsive && prevCurrentBase == 0
    {
      responsive, prevCurrentBase, prevCurrentLid := false, 0, 0;
      connected, powered := base, power;
      baseSet, lidDraw, points := 0, 0, [];
    }

    ghost method Mark()
      modifies this`points
      ensures points == old(points) + [(BaseDraw(), lidDraw)]
    {
      points := points + [(BaseDraw(), lidDraw)];
    }

    /** set_base_current (lines 134-153); errors are ignored until the base has answered once. */
    method SetBaseCurrent(current: int, baseOk: bool) returns (ok: bool)
      requires Valid() && connected
      modifies this`responsive, this`prevCurrentBase, this`baseSet, this`points
      ensures Valid() && ok == (baseOk || !old(responsive))
      ensures responsive == (old(responsive) || baseOk)
      ensures if baseOk then prevCurrentBase == baseSet == current && points == old(points) + [(BaseDraw(), lidDraw)]
        else prevCurrentBase == old(prevCurrentBase) && baseSet == old(baseSet) && points == old(points)
    {
      if !baseOk {
        return !responsive;
      }
      responsive := true;
      prevCurrentBase := current;
      baseSet := current;
      Mark();
      return true;
    }

    /** Lines 205-221: up to three calls. The first takes back what the lid provided, the second
        sets what it draws, and only after the third is that recorded. */
    method SetLidCurrent(current: int, failAt: nat) returns (ok: bool)
      modifies this`prevCurrentLid, this`lidDraw, this`points
      ensures ok == (failAt >= if current >= 0 then 3 else 1)
      ensures prevCurrentLid == if ok then current else old(prevCurrentLid)
      ensures old(points) <= points
      ensures if failAt >= (if current >= 0 then 2 else 1) then
          lidDraw == current && points[|old(points)|..] != [] && points[|points| - 1] == (BaseDraw(), current)
        else
          lidDraw == if failAt == 1 && current >= 0 then Max(old(lidDraw), 0) else old(lidDraw)
      ensures old(lidDraw) >= 0 ==>
        points == old(points) + if failAt >= (if current >= 0 then 2 else 1) then [(BaseDraw(), current)] else []
    {
      if current >= 0 {
        if failAt == 0 {
          return false;
        }
        if lidDraw < 0 {
          lidDraw := 0;
          Mark();
        }
        if failAt == 1 {
          return false;
        }
        lidDraw := current;
        Mark();
        if failAt == 2 {
          return false;
        }
      } else {
        if failAt == 0 {
          return false;
        }
        lidDraw := current;
        Mark();
      }
      prevCurrentLid := current;
      return true;
    }

    /** The recorded lid current puts the rising side first: which point is then too high. */
    ghost predicate Misordered(base: int, lid: int, baseOk: bool, lidFailAt: nat)
      reads this
    {
      if lid < prevCurrentLid then lidFailAt >= 2 && lid > lidDraw && BaseDraw() > base
      else connected && powered && baseOk && base > baseSet && lidDraw > lid
    }

    ghost function WorstPoint(base: int, lid: int): (int, int)
      reads this
    {
      if lid < prevCurrentLid then (BaseDraw(), lid) else (base, lidDraw)
    }

    ghost predicate Within(start: nat, limit: int)
      requires start <= |points|
      reads this
    {
      forall i | start <= i < |points| :: points[i].0 + points[i].1 <= limit
    }

    /** Lines 205-234: the lid, the base behind it if the lid came first, and its power. The first
        point is the only one that can exceed a limit above the new total. */
    method SwitchLid(base: int, lid: int, lidFirst: bool, baseOk: bool, lidFailAt: nat, ghost limit: int)
      requires Valid() && (!lidFirst ==> baseSet in {0, base})
      modifies this
      ensures Valid() && connected == old(connected) && old(points) <= points
      ensures lid >= 0 && old(lidDraw) >= 0 && base >= 0 && base + lid <= limit ==>
        && (Within(|old(points)|, limit) <==> lidFailAt < 2 || old(BaseDraw()) + lid <= limit)
        && (lidFailAt >= 2 ==> |points| > |old(points)| && points[|old(points)|] == (old(BaseDraw()), lid))
      ensures lidFailAt >= 3 ==> prevCurrentLid == lidDraw == lid
      ensures lidFailAt >= 3 && connected && baseOk && lidFirst ==> prevCurrentBase == baseSet == base
      ensures !lidFirst ==> prevCurrentBase == old(prevCurrentBase) && baseSet == old(baseSet)
      ensures lidFailAt >= 3 && connected && baseOk && base != 0 ==> powered
      ensures lid >= 0 && lidFailAt == 2 ==>
        lidDraw == lid && prevCurrentLid == old(prevCurrentLid) && powered == old(powered) && baseSet == old(baseSet)
      ensures old(LidRecorded()) && !Partial(Switch(base, lid, baseOk, lidFailAt)) ==> LidRecorded()
    {
      var ok := SetLidCurrent(lid, lidFailAt);
      if !ok {
        return;
      }
      ghost var first := points;
      if lidFirst && connected {
        ok := SetBaseCurrent(base, baseOk);
        if !ok {
          return;
        }
      }
      if connected && base != 0 {
        powered := true;
        Mark();
      }
      assert |first| > |old(points)| ==> points[|old(points)|] == first[|old(points)|];
    }

    /** set_base_lid_current (lines 165-235). From non-negative draws to non-negative ones, no
        point on the way draws more in total than both ends, exactly unless the recorded current
        of the lid puts the rising side first. A stale record of the base never matters. */
    method SetBaseLidCurrent(base: int, lid: int, baseOk: bool, lidFailAt: nat)
      requires Valid()
      modifies this
      ensures Valid() && connected == old(connected) && old(points) <= points
      ensures old(BaseDraw()) >= 0 && old(lidDraw) >= 0 && base >= 0 && lid >= 0 ==>
        var limit := Max(old(BaseDraw() + lidDraw), base + lid);
        && (Within(|old(points)|, limit) <==> !old(Misordered(base, lid, baseOk, lidFailAt)))
        && (old(Misordered(base, lid, baseOk, lidFailAt)) ==> old(WorstPoint(base, lid)) in points[|old(points)|..])
      ensures connected && baseOk && lidFailAt >= 3 ==>
        prevCurrentBase == baseSet == base && prevCurrentLid == lidDraw == lid && (base != 0 ==> powered)
      ensures baseOk && lid >= 0 && lidFailAt == 2 ==>
        && lidDraw == lid && prevCurrentLid == old(prevCurrentLid) && powered == old(powered)
        && baseSet == if connected && lid >= prevCurrentLid then base else old(baseSet)
      ensures old(LidRecorded()) && !Partial(Switch(base, lid, baseOk, lidFailAt)) ==> LidRecorded()
    {
      hide Partial;
      var lidFirst;
      if lid >= 0 && lid < prevCurrentLid {
        lidFirst := true;
      } else if base >= 0 && base < prevCurrentBase {
        lidFirst := false;
      } else if lid < 0 {
        lidFirst := true;
      } else {
        lidFirst := false;
      }
      ghost var n, limit := |points|, Max(BaseDraw() + lidDraw, base + lid);
      if !lidFirst && connected {
        var ok := SetBaseCurrent(base, baseOk);
        if !ok {
          return;
        }
      }
      ghost var before := points;
      SwitchLid(base, lid, lidFirst, baseOk, lidFailAt, limit);
      assert |before| > n ==> points[n] == before[n];
      assert |points| > n ==> points[n..][0] == points[n];
    }

    /** base_update_battery_info (lines 523-541), as far as the currents go. */
    method UpdateBase()
      requires Valid()
      modifies this`responsive, this`prevCurrentBase
      ensures Valid()
      ensures if connected then responsive == old(responsive) && prevCurrentBase == old(prevCurrentBase)
        else !responsive && prevCurrentBase == baseSet == 0
    {
      if !connected {
        responsive, prevCurrentBase := false, 0;
      }
    }

    /** The system is off (lines 347-357): no current either way, and a base that answers is put to
        sleep and cut off. */
    method SwitchOff(baseOk: bool, lidFailAt: nat)
      requires Valid() && connected
      modifies this
      ensures Valid() && connected && old(points) <= points
      ensures old(BaseDraw()) >= 0 && old(lidDraw) >= 0 ==>
        (Within(|old(points)|, old(BaseDraw() + lidDraw)) <==> !old(Misordered(0, 0, baseOk, lidFailAt)))
      ensures old(LidRecorded()) && !Partial(SystemOff(baseOk, lidFailAt)) ==> LidRecorded()
      ensures !responsive && BaseDraw() == 0
    {
      SetBaseLidCurrent(0, 0, baseOk, lidFailAt);
      if responsive {
        responsive, powered := false, false;
        baseSet := 0;
      }
    }

    /** Over every run of plugging and switch-overs in which no charger call fails half-way, the
        record of the lid stays right and no switch-over between non-negative currents draws more
        than both its ends. */
    method Run(events: seq<Event>) returns (ghost overshot: bool)
      requires Valid()
      modifies this
      ensures Valid()
      ensures old(LidRecorded()) && (forall e | e in events :: !Partial(e)) ==> LidRecorded() && !overshot
    {
      overshot := false;
      for n := 0 to |events|
        invariant Valid()
        invariant old(LidRecorded()) && (forall e | e in events :: !Partial(e)) ==> LidRecorded() && !overshot
      {
        assert events[n] in events;
        ghost var start, drawn := |points|, BaseDraw() + lidDraw;
        ghost var judged := BaseDraw() >= 0 && lidDraw >= 0;
        match events[n]
        case Detach =>
          connected, baseSet := false, 0;
        case Attach(power) =>
          if !connected {
            connected, powered := true, power;
          }
        case Update =>
          UpdateBase();
        case Reset =>
          baseSet := 0;
        case Switch(base, lid, baseOk, lidFailAt) =>
          SetBaseLidCurrent(base, lid, baseOk, lidFailAt);
          overshot := overshot || (judged && base >= 0 && lid >= 0 && !Within(start, Max(drawn, base + lid)));
        case SystemOff(baseOk, lidFailAt) =>
          if connected {
            SwitchOff(baseOk, lidFailAt);
            overshot := overshot || (judged && !Within(start, drawn));
          }
      }
    }

    /** A charge request that fails after the limit of the lid was raised leaves 1000 mA recorded
        and 2000 mA drawn; the next switch-over, from 2000 mA to 2000 mA, goes through 2800 mA. */
    method StaleLidOvershoots()
      requires Valid() && connected && powered && responsive
      requires prevCurrentBase == baseSet == 0 && prevCurrentLid == lidDraw == 1000
      modifies this
      ensures old(points) <= points && (800, 2000) in points[|old(points)|..] && baseSet == 800 && lidDraw == 1200
    {
      SetBaseLidCurrent(0, 2000, true, 2);
      ghost var before := |points|;
      SetBaseLidCurrent(800, 1200, true, 3);
      assert forall p | p in points[before..] :: p in points[|old(points)|..];
    }
  }
}
