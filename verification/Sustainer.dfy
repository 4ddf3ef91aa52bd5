/** Keeping the battery inside a charge band (common/charge_state.c). */
module Sustainer {

  datatype Mode = Normal | Idle | Discharge

  /** NO_IDLE makes the sustainer discharge where it would idle. */
  datatype Band = Band(lower: int, upper: int, noIdle: bool)

  ghost predicate IsBand(b: Band) {
    0 <= b.lower <= b.upper <= 100
  }

  // ----- The setting -----

  datatype SetResult = Success | Inval | Unavailable

  class Setting {
    /** CONFIG_CHARGER_DISCHARGE_ON_AC. */
    const dischargesOnAc: bool
    var band: Band

    predicate Enabled()
      reads this
    {
      band.lower != -1 && band.upper != -1
    }

    ghost predicate Valid()
      reads this
    {
      if Enabled() then IsBand(band) else band == Band(-1, -1, false)
    }

    constructor (canDischarge: bool)
      ensures Valid() && !Enabled() && dischargesOnAc == canDischarge
    {
      dischargesOnAc := canDischarge;
      band := Band(-1, -1, false);
    }

    /** battery_sustainer_set (lines 189-218). */
    method Set(lower: int, upper: int) returns (r: SetResult)
      requires Valid()
      modifies this
      ensures Valid()
      ensures lower == -1 || upper == -1 ==> r == Success && !Enabled()
      ensures lower != -1 && upper != -1 ==>
        (r == Inval <==> !(0 <= lower <= upper <= 100)) && (r == Success ==> dischargesOnAc)
      ensures lower != -1 && upper != -1 && r == Success ==>
        Enabled() && band == old(band).(lower := lower, upper := upper)
      ensures r == Unavailable ==> !dischargesOnAc
      ensures r != Success ==> band == old(band)
    {
      if lower == -1 || upper == -1 {
        if Enabled() {
          band := Band(-1, -1, false);
        }
        return Success;
      }
      if lower <= upper && 0 <= lower && upper <= 100 {
        if !dischargesOnAc {
          return Unavailable;
        }
        band := band.(lower := lower, upper := upper);
        return Success;
      }
      return Inval;
    }
  }

  // ----- The switch and the battery -----

  /** sustain_switch_mode (lines 854-941). */
  function SwitchMode(b: Band, mode: Mode, soc: int): Mode {
    match mode
    case Normal =>
      if b.upper < soc then Discharge
      else if b.upper == soc then (if b.noIdle then Discharge else Idle)
      else Normal
    case Idle =>
      if soc < b.lower then Normal
      else if b.upper < soc then Discharge
      else Idle
    case Discharge =>
      if soc <= b.upper && !b.noIdle then Idle
      else if soc < b.lower then Normal
      else Discharge
  }

  datatype State = State(mode: Mode, soc: int)

  ghost predicate IsState(s: State) {
    0 <= s.soc <= 100
  }

  /** One step: the mode is switched, then the charge follows it by one percent; on idle a heavy
      load can draw the battery down as well. */
  function Step(b: Band, s: State, load: bool): (t: State)
    requires IsState(s)
    ensures IsState(t)
  {
    var mode := SwitchMode(b, s.mode, s.soc);
    var soc :=
      if mode == Normal then (if s.soc < 100 then s.soc + 1 else s.soc)
      else if (mode == Discharge || load) && s.soc > 0 then s.soc - 1
      else s.soc;
    State(mode, soc)
  }

  function Run(b: Band, s: State, n: nat): (t: State)
    requires IsState(s)
    ensures IsState(t)
  {
    if n == 0 then s else Step(b, Run(b, s, n - 1), false)
  }

  // ----- Convergence -----

  ghost predicate InBand(b: Band, soc: int) {
    b.lower <= soc <= b.upper
  }

  /** How many steps the charge is at most away from rest. */
  function Distance(b: Band, s: State): int {
    if s.soc > b.upper then s.soc - b.upper + 1
    else if s.mode == Idle && s.soc >= b.lower then 0
    else if s.mode == Discharge then (if s.soc >= b.lower then 1 else b.upper - s.soc + 2)
    else b.upper - s.soc + 1
  }

  lemma StepNearer(b: Band, s: State)
    requires IsBand(b) && IsState(s) && !b.noIdle
    ensures 0 <= Distance(b, s) <= 102
    ensures Distance(b, s) == 0 ==> Step(b, s, false) == s && s.mode == Idle && InBand(b, s.soc)
    ensures Distance(b, s) > 0 ==> Distance(b, Step(b, s, false)) < Distance(b, s)
  {}

  /** Without load, from any charge and any mode the battery comes to rest, idle inside the band,
      within 102 steps, and stays there. */
  lemma {:induction false} ComesToRest(b: Band, s: State, n: nat)
    requires IsBand(b) && IsState(s) && !b.noIdle
    ensures Distance(b, Run(b, s, n)) <= if n <= Distance(b, s) then Distance(b, s) - n else 0
    ensures n >= 102 ==> Run(b, s, n).mode == Idle && InBand(b, Run(b, s, n).soc) && Run(b, s, n + 1) == Run(b, s, n)
  {
    StepNearer(b, s);
    StepNearer(b, Run(b, s, n));
    if n > 0 {
      ComesToRest(b, s, n - 1);
      StepNearer(b, Run(b, s, n - 1));
    }
  }

  /** The band with the one percent below it that a discharge, or a load on idle, can reach. */
  ghost predicate NearBand(b: Band, s: State) {
    && b.lower - 1 <= s.soc <= b.upper
    && (s.mode == Discharge && !b.noIdle ==> s.soc >= b.lower)
  }

  /** With or without idling, whatever the load: once near the band, near it for good. */
  lemma NearBandIsKept(b: Band, s: State, load: bool)
    requires IsBand(b) && IsState(s) && NearBand(b, s)
    ensures NearBand(b, Step(b, s, load))
  {}

  /** Over every pattern of loads. */
  lemma {:induction false} NearBandUnderLoad(b: Band, s: State, loads: seq<bool>)
    requires IsBand(b) && IsState(s) && NearBand(b, s)
    ensures NearBand(b, RunUnder(b, s, loads))
    decreases |loads|
  {
    if loads != [] {
      NearBandIsKept(b, s, loads[0]);
      NearBandUnderLoad(b, Step(b, s, loads[0]), loads[1..]);
    }
  }

  function RunUnder(b: Band, s: State, loads: seq<bool>): (t: State)
    requires IsState(s)
    ensures IsState(t)
    decreases |loads|
  {
    if loads == [] then s else RunUnder(b, Step(b, s, loads[0]), loads[1..])
  }

  /** Without idling and without load it comes near the band one percent a step. */
  lemma {:induction false} ComesNear(b: Band, s: State, n: nat)
    requires IsBand(b) && IsState(s) && b.noIdle
    ensures var away := if s.soc > b.upper then s.soc - b.upper else if s.soc < b.lower then b.lower - s.soc else 0;
      var now := Run(b, s, n);
      && away <= 100
      && (NearBand(b, now) || (n < away && (b.upper < now.soc <= s.soc - n || s.soc + n <= now.soc < b.lower)))
  {
    if n > 0 {
      ComesNear(b, s, n - 1);
    }
  }

  /** How many steps the charge is at most away from the band, or one percent below. */
  function Away(b: Band, s: State): int {
    if s.soc > b.upper then s.soc - b.upper
    else if s.mode == Discharge && !b.noIdle && s.soc < b.lower then
      (if s.soc > 0 then b.lower - s.soc + 1 else b.lower)
    else if s.soc < b.lower - 1 then b.lower - 1 - s.soc
    else 0
  }

  lemma StepLessAway(b: Band, s: State, load: bool)
    requires IsBand(b) && IsState(s)
    ensures 0 <= Away(b, s) <= 100
    ensures Away(b, s) == 0 <==> NearBand(b, s)
    ensures Away(b, s) > 0 ==> Away(b, Step(b, s, load)) < Away(b, s)
  {}

  /** From any charge and any mode, with or without idling, and under every pattern of loads the
      battery comes near the band within 100 steps and stays there. */
  lemma {:induction false} ComesNearUnderLoad(b: Band, s: State, loads: seq<bool>)
    requires IsBand(b) && IsState(s) && |loads| >= Away(b, s)
    ensures NearBand(b, RunUnder(b, s, loads)) && Away(b, s) <= 100
    decreases |loads|
  {
    StepLessAway(b, s, false);
    if NearBand(b, s) {
      NearBandUnderLoad(b, s, loads);
    } else {
      StepLessAway(b, s, loads[0]);
      ComesNearUnderLoad(b, Step(b, s, loads[0]), loads[1..]);
    }
  }

  ghost predicate Keeps(b: Band, load: bool) {
    forall s: State :: IsState(s) && InBand(b, s.soc) ==> InBand(b, Step(b, s, load).soc)
  }

  /** The band itself is kept from every mode by a step without load exactly if idling is allowed
      or nothing lies below it, and by a step with load exactly if nothing lies below it: at the
      lower end the battery is still discharged, or idles and feeds the load. */
  lemma BandKeptIff(b: Band, load: bool)
    requires IsBand(b)
    ensures Keeps(b, load) <==> b.lower == 0 || (!b.noIdle && !load)
  {
    if b.lower > 0 && (b.noIdle || load) {
      var s := State(if b.noIdle then Discharge else Idle, b.lower);
      assert IsState(s) && InBand(b, s.soc) && !InBand(b, Step(b, s, load).soc);
    }
  }

  // ----- The way there -----

  /** Where idling is not allowed, a battery that is charged or discharged never comes to idle. */
  lemma NeverIdles(b: Band, mode: Mode, soc: int)
    requires b.noIdle && mode != Idle
    ensures SwitchMode(b, mode, soc) != Idle
  {}

  lemma {:induction false} RunSplit(b: Band, s: State, m: nat, n: nat)
    requires IsState(s)
    ensures Run(b, s, m + n) == Run(b, Run(b, s, m), n)
  {
    if n > 0 {
      RunSplit(b, s, m, n - 1);
    }
  }

  /** Charging goes on through the band up to its upper end. There the battery idles, or is discharged
      where idling is not allowed. */
  lemma {:induction false} ChargesToTop(b: Band, soc: int, n: nat)
    requires IsBand(b) && 0 <= soc && soc + n <= b.upper
    ensures Run(b, State(Normal, soc), n) == State(Normal, soc + n)
    ensures soc + n == b.upper ==>
      Step(b, State(Normal, soc + n), false) ==
        if !b.noIdle then State(Idle, b.upper) else State(Discharge, if b.upper > 0 then b.upper - 1 else 0)
  {
    if n > 0 {
      ChargesToTop(b, soc, n - 1);
    }
  }

  /** Discharging goes on down to the upper end of the band, where the battery idles; where idling is
      not allowed, through the band to one percent below it, and from there it is charged. */
  lemma {:induction false} DischargesDown(b: Band, soc: int, n: nat)
    requires IsBand(b) && soc <= 100 && soc - n >= if b.noIdle then Floor(b) else b.upper
    ensures Run(b, State(Discharge, soc), n) == State(Discharge, soc - n)
    ensures !b.noIdle && soc - n == b.upper ==> Step(b, State(Discharge, soc - n), false) == State(Idle, b.upper)
    ensures b.noIdle && b.lower > 0 && soc - n == b.lower - 1 ==>
      Step(b, State(Discharge, soc - n), false) == State(Normal, b.lower)
  {
    if n > 0 {
      DischargesDown(b, soc, n - 1);
    }
  }

  /** One percent below the band, or an empty battery. */
  function Floor(b: Band): int {
    if b.lower > 0 then b.lower - 1 else 0
  }

  /** Idling goes on inside the band only. */
  lemma IdlesInside(b: Band, soc: int)
    requires IsBand(b) && 0 <= soc <= 100
    ensures b.lower <= soc <= b.upper ==> Step(b, State(Idle, soc), false) == State(Idle, soc)
    ensures soc < b.lower ==> Step(b, State(Idle, soc), false) == State(Normal, soc + 1)
    ensures soc > b.upper ==> Step(b, State(Idle, soc), false) == State(Discharge, soc - 1)
  {}

  /** Without idling the charge goes up and down for ever, between one percent below the band and its
      upper end. */
  lemma Cycle(b: Band)
    requires IsBand(b) && b.noIdle && b.lower > 0
    ensures var width, start := b.upper - b.lower + 1, State(Discharge, b.lower - 1);
      Run(b, start, width) == State(Normal, b.upper) && Run(b, start, 2 * width) == start
  {
    var width, start := b.upper - b.lower + 1, State(Discharge, b.lower - 1);
    DischargesDown(b, b.lower - 1, 0);
    assert Run(b, start, 1) == State(Normal, b.lower) by {
      assert Run(b, start, 0) == start;
    }
    ChargesToTop(b, b.lower, width - 1);
    RunSplit(b, start, 1, width - 1);
    assert Run(b, State(Normal, b.upper), 1) == State(Discharge, b.upper - 1) by {
      assert Run(b, State(Normal, b.upper), 0) == State(Normal, b.upper);
    }
    DischargesDown(b, b.upper - 1, width - 1);
    RunSplit(b, State(Normal, b.upper), 1, width - 1);
    RunSplit(b, start, width, width);
  }
}
