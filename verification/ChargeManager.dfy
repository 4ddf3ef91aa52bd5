/** Charge-port arbitration (common/charge_manager.c): the scan for the best offer, the hunt for a
    port the board accepts, and the current that is committed. */
module ChargeManager {
  import opened ChargeMarket

  const CEIL_NONE: int := -1
  const CURRENT_UNINITIALIZED: int := -1

  class ChargeManager {
    const suppliers: nat
    const ports: nat
    const priority: seq<int>
    const validPort: seq<bool>

    /** The RO image of a locked system cannot tell what a dual-role port can do. */
    const lockedRo: bool

    /** What each supplier offers on each port, and the ceilings set for a port. */
    const available: array2<Charge>
    var ceilings: seq<seq<int>>
    var dedicated: seq<bool>
    var overridePort: int
    var leftSafeMode: bool
    var dpsPort: int
    var pdPower: map<int, int>

    var chargePort: int
    var chargeSupplier: int
    var chargeCurrent: int
    var chargeCurrentUncapped: int
    var chargePdCurrentUncapped: int
    var chargeVoltage: int
    var portInitialized: bool

    /** What the board was last told: the port it accepted, and the limit. */
    var boardPort: int
    var boardLimit: (int, int, int)

    /** charge_manager_init (lines 266-312), with the tables seeded by the boards. */
    constructor (prio: seq<int>, valid: seq<bool>, table: array2<Charge>, ded: seq<bool>, ceils: seq<seq<int>>,
                 locked: bool)
      requires |valid| == |ded| == |ceils| == table.Length1 && table.Length0 == |prio|
      ensures Valid() && BoardInformed() && available == table && priority == prio && validPort == valid
      ensures dedicated == ded && ceilings == ceils && lockedRo == locked && !leftSafeMode
      ensures chargePort == PORT_NONE && overridePort == OVERRIDE_OFF && dpsPort == PORT_NONE && pdPower == map[]
    {
      suppliers, ports, priority, validPort := |prio|, |valid|, prio, valid;
      available, ceilings, dedicated, lockedRo := table, ceils, ded, locked;
      overridePort, leftSafeMode, portInitialized := OVERRIDE_OFF, false, false;
      dpsPort, pdPower := PORT_NONE, map[];
      chargePort, chargeSupplier, chargeVoltage := PORT_NONE, SUPPLIER_NONE, 0;
      chargeCurrent, chargeCurrentUncapped := CURRENT_UNINITIALIZED, CURRENT_UNINITIALIZED;
      chargePdCurrentUncapped := CURRENT_UNINITIALIZED;
      boardPort, boardLimit := PORT_NONE, (PORT_NONE, SUPPLIER_NONE, 0);
    }

    ghost predicate Sized()
      reads this`dedicated
    {
      && |priority| == suppliers && |validPort| == |dedicated| == ports
      && available.Length0 == suppliers && available.Length1 == ports
    }

    ghost predicate Valid()
      reads this
    {
      && Sized() && |ceilings| == ports
      && OVERRIDE_DONT_CHARGE <= overridePort < ports
      && PORT_NONE <= chargePort < ports
      && SUPPLIER_NONE <= chargeSupplier < suppliers
    }

    /** After a refresh the board knows the committed port, supplier and current. */
    ghost predicate BoardInformed()
      reads this
    {
      if portInitialized then
        boardPort == chargePort && boardLimit == (chargePort, chargeSupplier, chargeCurrent)
      else
        chargeSupplier == SUPPLIER_NONE && chargeCurrent == CURRENT_UNINITIALIZED
    }

    ghost function Offers(): seq<seq<Charge>>
      reads available
    {
      var table := available;
      seq(table.Length0, s requires 0 <= s < table.Length0 reads table =>
        seq(table.Length1, p requires 0 <= p < table.Length1 && 0 <= s < table.Length0 reads table => table[s, p]))
    }

    /** What there is to choose from, and what is in use. */
    ghost function Table(): (m: Market)
      requires Sized()
      reads this`dedicated, this`leftSafeMode, this`dpsPort, this`pdPower, available
      ensures Shaped(m) && |m.priority| == suppliers && |m.validPort| == ports
      ensures forall s, p | 0 <= s < suppliers && 0 <= p < ports :: Offer(m, s, p) == available[s, p]
    {
      Market(priority, validPort, dedicated, lockedRo, leftSafeMode, dpsPort, pdPower, Offers())
    }

    ghost function InUse(): Setting
      reads this
    {
      Setting(overridePort, chargePort, chargeSupplier, portInitialized)
    }

    // ----- The scan -----

    /** Lines 823-849, with is_dualrole_charging_capable (lines 771-780). */
    predicate Candidate(s: nat, p: nat)
      requires Sized() && s < suppliers && p < ports
      reads this, available
      ensures Candidate(s, p) <==> IsCandidate(Table(), overridePort, s, p)
    {
      && validPort[p] && available[s, p].current != 0 && available[s, p].voltage != 0
      && (dedicated[p] || overridePort == p || lockedRo || !leftSafeMode)
    }

    /** get_candidate_port_power (lines 757-769). */
    function PortPower(s: nat, p: nat): (power: int)
      requires Sized() && s < suppliers && p < ports
      reads this, available
      ensures power == CandidatePower(Table(), s, p)
    {
      var own := Power(available[s, p]);
      if p in pdPower && pdPower[p] > own then pdPower[p] else own
    }

    /** One row of the scan; the DPS port ends it (line 861). */
    method ScanRow(i: nat, start: Found) returns (best: Found)
      requires Valid() && i < suppliers && SUPPLIER_NONE <= start.supplier < suppliers
      requires start == Scanned(Table(), overridePort, chargePort, i, 0)
      ensures best == Scanned(Table(), overridePort, chargePort, i, ports) && SUPPLIER_NONE <= best.supplier < suppliers
    {
      hide Power, Scanned, Offer;
      best := start;
      for j := 0 to ports
        invariant best == Scanned(Table(), overridePort, chargePort, i, j) && SUPPLIER_NONE <= best.supplier < suppliers
        invariant i == SUPPLIER_PD && DpsHit(Table(), overridePort) ==> j <= dpsPort
      {
        ScannedNext(Table(), overridePort, chargePort, i, j);
        if Candidate(i, j) && !(overridePort != OVERRIDE_OFF && overridePort == best.port && overridePort != j) {
          var power := PortPower(i, j);
          if overridePort == OVERRIDE_OFF && i == SUPPLIER_PD && j == dpsPort {
            best := Found(i, j, best.power);
            RowEnds(Table(), overridePort, chargePort, ports);
            return;
          } else if || best.supplier == SUPPLIER_NONE
                    || priority[i] < priority[best.supplier]
                    || (j == overridePort && best.port != overridePort)
                    || (priority[i] == priority[best.supplier]
                        && (power > best.power || (power == best.power && chargePort == j)))
          {
            best := Found(i, j, power);
          }
        }
      }
    }

    /** Lines 821-890. */
    method ScanTable() returns (best: Found)
      requires Valid()
      ensures best == Scanned(Table(), overridePort, chargePort, suppliers, 0)
    {
      best := Found(SUPPLIER_NONE, PORT_NONE, -1);
      for i := 0 to suppliers
        invariant best == Scanned(Table(), overridePort, chargePort, i, 0) && SUPPLIER_NONE <= best.supplier < suppliers
      {
        best := ScanRow(i, best);
      }
    }

    /** charge_manager_get_best_port (lines 798-910). */
    method GetBestPort(disconnected: bool) returns (choice: Choice)
      requires Valid()
      ensures choice == Choose(Table(), InUse(), disconnected)
      ensures choice.Choice? && !disconnected ==>
        Best(Table(), overridePort, chargePort, choice.supplier, choice.port)
      ensures !disconnected && overridePort == OVERRIDE_OFF && dpsPort == PORT_NONE && pdPower == map[] ==>
        forall t: nat, q: nat | t < suppliers && q < ports && validPort[q]
            && available[t, q].current != 0 && available[t, q].voltage != 0
            && (dedicated[q] || lockedRo || !leftSafeMode) ::
          ChosenBeats(choice, t, q)
    {
      hide Scanned, Best, ChosenBeats;
      ChosenPort(Table(), InUse(), disconnected);
      forall t: nat, q: nat | && !disconnected && overridePort == OVERRIDE_OFF
                              && dpsPort == PORT_NONE && pdPower == map[]
                              && t < suppliers && q < ports && validPort[q]
                              && available[t, q].current != 0 && available[t, q].voltage != 0
                              && (dedicated[q] || lockedRo || !leftSafeMode)
        ensures ChosenBeats(Choose(Table(), InUse(), disconnected), t, q)
      {
        ChosenOffer(t, q);
      }
      if overridePort == OVERRIDE_DONT_CHARGE {
        return Choice(SUPPLIER_NONE, PORT_NONE);
      }
      var best := ScanTable();
      choice := Choice(best.supplier, best.port);
      if chargePort != PORT_NONE && chargePort != best.port && disconnected {
        if chargeSupplier == SUPPLIER_NONE {
          return OutOfTable;
        }
        var offer := available[chargeSupplier, chargePort];
        var offers := offer.current != 0 || offer.voltage != 0;
        choice := Choice(if offers then chargeSupplier else best.supplier, chargePort);
      }
    }

    /** The chosen offer has no higher priority number, and at the same number no less power. */
    ghost predicate ChosenBeats(c: Choice, t: nat, q: nat)
      requires Sized() && t < suppliers && q < ports
      reads this`dedicated, available
    {
      && c.Choice? && 0 <= c.supplier < suppliers && 0 <= c.port < ports
      && priority[c.supplier] <= priority[t]
      && (priority[c.supplier] == priority[t] ==>
            available[c.supplier, c.port].current * available[c.supplier, c.port].voltage
            >= available[t, q].current * available[t, q].voltage)
    }

    lemma ChosenOffer(t: nat, q: nat)
      requires Valid() && overridePort == OVERRIDE_OFF && dpsPort == PORT_NONE && pdPower == map[]
      requires t < suppliers && q < ports && validPort[q] && (dedicated[q] || lockedRo || !leftSafeMode)
      requires available[t, q].current != 0 && available[t, q].voltage != 0
      ensures ChosenBeats(Choose(Table(), InUse(), false), t, q)
    {
      hide Best, Choose;
      ChosenPort(Table(), InUse(), false);
      var c := Choose(Table(), InUse(), false);
      var m := Table();
      OfferIs(m, t, q);
      OfferIs(m, c.supplier, c.port);
      NothingBetter(m, overridePort, chargePort, c.supplier, c.port, t, q);
    }

    // ----- One port's suppliers -----

    predicate Usable(s: nat, port: nat, minCurrent: int)
      requires Sized() && s < suppliers && port < ports
      reads this`dedicated, available
    {
      available[s, port].current > minCurrent && available[s, port].voltage > 0
    }

    /** Supplier s ranks no lower than t on the port. */
    predicate Ranked(s: nat, t: nat, port: nat)
      requires Sized() && s < suppliers && t < suppliers && port < ports
      reads this`dedicated, available
    {
      priority[s] < priority[t]
      || (priority[s] == priority[t] && Power(available[s, port]) >= Power(available[t, port]))
    }

    /** Among the first n suppliers, and the one the search started from. */
    ghost predicate BestSupplier(port: nat, start: int, minCurrent: int, n: nat, sup: int)
      requires Sized() && port < ports && n <= suppliers && start < suppliers
      reads this`dedicated, available
    {
      if sup == SUPPLIER_NONE then
        start == SUPPLIER_NONE && forall i | 0 <= i < n :: !Usable(i, port, minCurrent)
      else
        && 0 <= sup < suppliers && (sup == start || (sup < n && Usable(sup, port, minCurrent)))
        && (0 <= start ==> Ranked(sup, start, port) && (Ranked(start, sup, port) ==> sup == start))
        && (forall i | 0 <= i < n && Usable(i, port, minCurrent) ::
              Ranked(sup, i, port) && (Ranked(i, sup, port) ==> sup == start || sup <= i))
    }

    /** By priority, then by current times voltage; at the same product the one given to start from,
        else the first. */
    ghost predicate GoesBefore(sup: nat, i: nat, start: int, port: nat)
      requires Sized() && sup < suppliers && i < suppliers && port < ports
      reads this`dedicated, available
    {
      var a, b := available[sup, port], available[i, port];
      priority[sup] < priority[i]
      || (&& priority[sup] == priority[i]
          && (a.current * a.voltage > b.current * b.voltage
              || (a.current * a.voltage == b.current * b.voltage && (sup == start || (i != start && sup <= i)))))
    }

    lemma SupplierInPlainTerms(port: nat, start: int, minCurrent: int, sup: int, i: nat)
      requires Valid() && port < ports && SUPPLIER_NONE <= start < suppliers && i < suppliers
      requires BestSupplier(port, start, minCurrent, suppliers, sup)
      ensures sup == -1 ==> available[i, port].current <= minCurrent || available[i, port].voltage <= 0
      ensures sup != -1 && i == start ==> 0 <= sup < suppliers && GoesBefore(sup, i, start, port)
      ensures sup != -1 && available[i, port].current > minCurrent && available[i, port].voltage > 0 ==>
        0 <= sup < suppliers && GoesBefore(sup, i, start, port)
    {
      if sup == -1 {
        assert !Usable(i, port, minCurrent);
      } else {
        assert i != start && available[i, port].current > minCurrent && available[i, port].voltage > 0 ==>
          Usable(i, port, minCurrent);
      }
    }

    /** find_supplier (lines 399-425): the best supplier of one port above a current; the one
        given to start from, if any, is kept on a tie. */
    method FindSupplier(port: nat, start: int, minCurrent: int) returns (sup: int)
      requires Valid() && port < ports && SUPPLIER_NONE <= start < suppliers
      ensures BestSupplier(port, start, minCurrent, suppliers, sup)
      ensures -1 <= sup < suppliers && (sup == -1 ==> start == -1)
      ensures sup == -1 ==> forall i: nat | i < suppliers ::
        available[i, port].current <= minCurrent || available[i, port].voltage <= 0
      ensures sup != -1 && sup != start ==>
        available[sup, port].current > minCurrent && available[sup, port].voltage > 0
      ensures sup != -1 ==> forall i: nat | i < suppliers
          && (i == start || (available[i, port].current > minCurrent && available[i, port].voltage > 0)) ::
        GoesBefore(sup, i, start, port)
    {
      sup := SearchSupplier(port, start, minCurrent);
      forall i: nat | i < suppliers
        ensures sup == -1 ==> available[i, port].current <= minCurrent || available[i, port].voltage <= 0
        ensures sup != -1 && i == start ==> GoesBefore(sup, i, start, port)
        ensures sup != -1 && available[i, port].current > minCurrent && available[i, port].voltage > 0 ==>
          GoesBefore(sup, i, start, port)
      {
        hide BestSupplier, GoesBefore;
        SupplierInPlainTerms(port, start, minCurrent, sup, i);
      }
    }

    method SearchSupplier(port: nat, start: int, minCurrent: int) returns (sup: int)
      requires Valid() && port < ports && SUPPLIER_NONE <= start < suppliers
      ensures BestSupplier(port, start, minCurrent, suppliers, sup)
    {
      hide Power;
      sup := start;
      for i := 0 to suppliers
        invariant BestSupplier(port, start, minCurrent, i, sup)
      {
        if available[i, port].current <= minCurrent || available[i, port].voltage <= 0 {
        } else if sup == SUPPLIER_NONE {
          sup := i;
        } else if priority[sup] < priority[i] {
        } else if priority[i] < priority[sup] {
          sup := i;
        } else if Power(available[i, port]) > Power(available[sup, port]) {
          sup := i;
        }
      }
    }

    // ----- The ceiling -----

    /** The least of the first n ceilings that are set, or none. */
    ghost predicate LeastSet(ceils: seq<int>, n: nat, ceil: int)
      requires n <= |ceils|
    {
      if ceil == CEIL_NONE then forall i | 0 <= i < n :: ceils[i] == CEIL_NONE
      else ceil in ceils[..n] && forall i | 0 <= i < n && ceils[i] != CEIL_NONE :: ceil <= ceils[i]
    }

    ghost predicate IsCeil(port: int, ceil: int)
      requires |validPort| == |ceilings| == ports
      reads this`ceilings
    {
      if !(0 <= port < ports && validPort[port]) then ceil == CEIL_NONE
      else LeastSet(ceilings[port], |ceilings[port]|, ceil)
    }

    /** charge_manager_get_ceil (lines 728-744). */
    method GetCeil(port: int) returns (ceil: int)
      requires Valid()
      ensures IsCeil(port, ceil)
    {
      ceil := CEIL_NONE;
      if !(0 <= port < ports && validPort[port]) {
        return;
      }
      for i := 0 to |ceilings[port]|
        invariant LeastSet(ceilings[port], i, ceil)
      {
        var val := ceilings[port][i];
        assert ceilings[port][..i + 1] == ceilings[port][..i] + [val];
        if val != CEIL_NONE && (ceil == CEIL_NONE || val < ceil) {
          ceil := val;
        }
      }
    }

    // ----- The hunt -----

    method ClearPort(port: nat)
      requires Valid() && port < ports
      modifies available
      ensures Table() == Clear(old(Table()), port)
    {
      for i := 0 to suppliers
        invariant forall s, p | 0 <= s < suppliers && 0 <= p < ports ::
          available[s, p] == if p == port && s < i then NO_CHARGE else old(available[s, p])
      {
        available[i, port] := NO_CHARGE;
      }
      SameOffers(Table(), Clear(old(Table()), port));
    }

    /** One round of the loop of charge_manager_refresh (lines 932-977). */
    method HuntOnce(w: World, n: nat)
      returns (ended: bool, outcome: Outcome, newPort: int, newSupplier: int, ghost stage: Stage)
      requires Valid()
      modifies available
      ensures stage == Round(old(Table()), InUse(), w, n) && Table() == stage.market && ended == stage.Ended?
      ensures ended ==>
        && outcome == stage.outcome
        && stage.choice == if outcome == Fault then OutOfTable else Choice(newSupplier, newPort)
    {
      hide Choose, Clear;
      ghost var start := Table();
      var choice := GetBestPort(w.disconnected(n));
      ChosenPort(start, InUse(), w.disconnected(n));
      stage := Round(start, InUse(), w, n);
      if choice == OutOfTable {
        return true, Fault, PORT_NONE, SUPPLIER_NONE, stage;
      }
      newPort, newSupplier := choice.port, choice.supplier;
      if !leftSafeMode && newPort == PORT_NONE {
        return true, SafeMode, newPort, newSupplier, stage;
      }
      if (portInitialized && newPort == chargePort && newSupplier == chargeSupplier) || w.accepts(n, newPort) {
        return true, Committed, newPort, newSupplier, stage;
      }
      if newPort == PORT_NONE {
        return true, AssertionFailed, newPort, newSupplier, stage;
      }
      ClearPort(newPort);
      ended, outcome := false, Fault;
    }

    /** The loop (lines 931-978), followed for at most `rounds` rounds. */
    method Hunt(w: World, rounds: nat)
      returns (ended: bool, outcome: Outcome, newPort: int, newSupplier: int, ghost stage: Stage)
      requires Valid()
      modifies available
      ensures stage == After(old(Table()), InUse(), w, rounds) && Table() == stage.market && ended == stage.Ended?
      ensures ended ==>
        && outcome == stage.outcome
        && stage.choice == if outcome == Fault then OutOfTable else Choice(newSupplier, newPort)
    {
      hide Round, After;
      ghost var start := Table();
      ended, outcome, newPort, newSupplier, stage := false, Fault, PORT_NONE, SUPPLIER_NONE, Hunting(start);
      AfterNone(start, InUse());
      for n := 0 to rounds
        invariant stage == Hunting(Table()) == After(start, InUse(), w, n) && !ended
      {
        AfterNext(start, InUse(), w, n);
        ended, outcome, newPort, newSupplier, stage := HuntOnce(w, n);
        if ended {
          AfterEnds(start, InUse(), w, n + 1, rounds);
          return;
        }
      }
    }

    // ----- The commit -----

    /** The current drawn from a supplier: what it offers, or the hardware may ramp up to, under the
        ceiling, which safe mode ignores. */
    ghost predicate IsCurrent(ramp: (int, int, int) -> int, supplier: int, port: int,
                              current: int, uncapped: int, voltage: int)
      requires Sized() && |ceilings| == ports
      requires supplier != SUPPLIER_NONE ==> 0 <= supplier < suppliers && 0 <= port < ports
      reads this`dedicated, this`ceilings, this`leftSafeMode, available
    {
      if supplier == SUPPLIER_NONE then current == uncapped == voltage == 0
      else
        && uncapped == ramp(port, supplier, available[supplier, port].current)
        && voltage == available[supplier, port].voltage
        && current <= uncapped
        && (if !leftSafeMode || !validPort[port] then current == uncapped
            else
              && (forall i | 0 <= i < |ceilings[port]| && ceilings[port][i] != CEIL_NONE ::
                    current <= ceilings[port][i])
              && (current == uncapped || (current != CEIL_NONE && current in ceilings[port])))
    }

    /** Lines 989-1020; `ramp` is what the hardware may ramp an offer up to, the offer itself without
        a ramp (lines 999-1007). */
    method Currents(ramp: (int, int, int) -> int, supplier: int, port: int)
      returns (current: int, uncapped: int, voltage: int)
      requires Valid() && (supplier != SUPPLIER_NONE ==> 0 <= supplier < suppliers && 0 <= port < ports)
      ensures IsCurrent(ramp, supplier, port, current, uncapped, voltage)
    {
      current, uncapped, voltage := 0, 0, 0;
      if supplier != SUPPLIER_NONE {
        uncapped := ramp(port, supplier, available[supplier, port].current);
        var ceil := GetCeil(port);
        assert ceilings[port][..|ceilings[port]|] == ceilings[port];
        current := if leftSafeMode && ceil != CEIL_NONE && ceil < uncapped then ceil else uncapped;
        voltage := available[supplier, port].voltage;
      }
    }

    /** What the hunt (line 957) and lines 1031-1050 tell the board. */
    method InformBoard(newPort: int, newSupplier: int, current: int)
      requires BoardInformed() && (newSupplier == SUPPLIER_NONE ==> current != CURRENT_UNINITIALIZED)
      modifies this`boardPort, this`boardLimit
      ensures boardPort == newPort && boardLimit == (newPort, newSupplier, current)
    {
      if !(portInitialized && newPort == chargePort && newSupplier == chargeSupplier) {
        boardPort := newPort;
      }
      if newPort != chargePort || current != chargeCurrent || newSupplier != chargeSupplier {
        boardLimit := (newPort, newSupplier, current);
      }
    }

    /** Lines 1068-1080: the port that is asked for power again, and the port left, which is asked to
        swap roles. */
    method Signals(newPort: int, uncapped: int, voltage: int) returns (updatedNew: int, updatedOld: int)
      ensures updatedNew == PORT_NONE <==>
        newPort == PORT_NONE || (newPort, uncapped, voltage) == (chargePort, chargeCurrentUncapped, chargeVoltage)
      ensures updatedNew != PORT_NONE ==> updatedNew == newPort
      ensures updatedOld == if chargePort == newPort then PORT_NONE else chargePort
    {
      updatedNew, updatedOld := PORT_NONE, PORT_NONE;
      if && newPort != PORT_NONE
         && (newPort != chargePort || uncapped != chargeCurrentUncapped || voltage != chargeVoltage)
      {
        updatedNew := newPort;
      }
      if chargePort != newPort && chargePort != PORT_NONE {
        updatedOld := chargePort;
      }
    }

    /** Lines 1026-1029 and 1082-1087. */
    method Record(newPort: int, newSupplier: int, current: int, uncapped: int, voltage: int)
      modifies this`chargePdCurrentUncapped
      modifies this`chargeCurrent, this`chargeCurrentUncapped, this`chargeVoltage, this`chargeSupplier, this`chargePort
      ensures chargePort == newPort && chargeSupplier == newSupplier
      ensures chargeCurrent == current && chargeCurrentUncapped == uncapped && chargeVoltage == voltage
      ensures chargePdCurrentUncapped == if newSupplier == SUPPLIER_PD then uncapped else CURRENT_UNINITIALIZED
    {
      chargePdCurrentUncapped := if newSupplier == SUPPLIER_PD then uncapped else CURRENT_UNINITIALIZED;
      chargeCurrent, chargeCurrentUncapped, chargeVoltage := current, uncapped, voltage;
      chargeSupplier, chargePort := newSupplier, newPort;
    }

    /** Lines 980-987 and 1022-1087. */
    method Commit(newPort: int, newSupplier: int, current: int, uncapped: int, voltage: int)
      returns (updatedNew: int, updatedOld: int)
      requires Valid() && BoardInformed() && PORT_NONE <= newPort < ports
      requires SUPPLIER_NONE <= newSupplier < suppliers
      requires newSupplier == SUPPLIER_NONE ==> current != CURRENT_UNINITIALIZED
      modifies this`boardPort, this`boardLimit, this`portInitialized, this`overridePort, this`chargePdCurrentUncapped
      modifies this`chargeCurrent, this`chargeCurrentUncapped, this`chargeVoltage, this`chargeSupplier, this`chargePort
      ensures Valid() && BoardInformed() && portInitialized
      ensures overridePort ==
        if old(overridePort) >= 0 && old(overridePort) != newPort then OVERRIDE_OFF else old(overridePort)
      ensures chargePort == newPort && chargeSupplier == newSupplier
      ensures chargeCurrent == current && chargeCurrentUncapped == uncapped && chargeVoltage == voltage
      ensures chargePdCurrentUncapped == if newSupplier == SUPPLIER_PD then uncapped else CURRENT_UNINITIALIZED
      ensures updatedNew == PORT_NONE <==>
        newPort == PORT_NONE || (newPort, uncapped, voltage) == old((chargePort, chargeCurrentUncapped, chargeVoltage))
      ensures updatedNew != PORT_NONE ==> updatedNew == newPort
      ensures updatedOld == if newPort == old(chargePort) then PORT_NONE else old(chargePort)
    {
      InformBoard(newPort, newSupplier, current);
      updatedNew, updatedOld := Signals(newPort, uncapped, voltage);
      portInitialized := true;
      if overridePort >= 0 && overridePort != newPort {
        overridePort := OVERRIDE_OFF;
      }
      Record(newPort, newSupplier, current, uncapped, voltage);
    }

    /** charge_manager_refresh (lines 916-1087), with its hunt followed for at most `rounds` rounds:
        how it ends, what the board was asked, and what is in use afterwards. */
    method Refresh(w: World, ramp: (int, int, int) -> int, rounds: nat)
      returns (ended: bool, outcome: Outcome, updatedNew: int, updatedOld: int,
               ghost offers: nat, ghost rejected: set<int>)
      requires Valid() && BoardInformed()
      modifies this, available
      ensures Valid() && BoardInformed() && ceilings == old(ceilings)
      ensures ended <==> After(old(Table()), old(InUse()), w, rounds).Ended?
      ensures Table() == After(old(Table()), old(InUse()), w, rounds).market && Cleared(old(Table()), Table(), rejected)
      ensures |rejected| <= offers <= rounds && forall p | p in rejected :: 0 <= p < ports && Refused(w, offers, p)
      ensures |rejected| < offers ==> DisconnectedBefore(w, offers)
      ensures ended ==>
        Choose(Table(), old(InUse()), w.disconnected(offers)) ==
          match outcome
          case Fault => OutOfTable
          case Committed => Choice(chargeSupplier, chargePort)
          case _ => Choice(SUPPLIER_NONE, PORT_NONE)
      ensures ended && outcome == Committed ==>
        && (leftSafeMode || chargePort != PORT_NONE) && (chargeSupplier != SUPPLIER_NONE ==> chargePort != PORT_NONE)
        && (w.accepts(offers, chargePort)
            || (old(portInitialized) && chargePort == old(chargePort) && chargeSupplier == old(chargeSupplier)))
        && portInitialized
        && IsCurrent(ramp, chargeSupplier, chargePort, chargeCurrent, chargeCurrentUncapped, chargeVoltage)
        && overridePort ==
             (if old(overridePort) >= 0 && old(overridePort) != chargePort then OVERRIDE_OFF else old(overridePort))
      ensures ended && outcome == SafeMode ==> !leftSafeMode
      ensures ended && outcome == AssertionFailed ==> !w.accepts(offers, PORT_NONE)
      ensures !ended || outcome != Committed ==>
        && InUse() == old(InUse()) && chargeCurrent == old(chargeCurrent) && boardLimit == old(boardLimit)
        && updatedNew == updatedOld == PORT_NONE
    {
      hide Choose, After, IsCurrent, Cleared, Best, Refused, DisconnectedBefore, Live;
      ghost var start, x := Table(), InUse();
      var newPort, newSupplier;
      ghost var stage;
      ended, outcome, newPort, newSupplier, stage := Hunt(w, rounds);
      offers, rejected := AfterKeeps(start, x, w, rounds);
      ChosenPort(Table(), x, w.disconnected(offers));
      updatedNew, updatedOld := PORT_NONE, PORT_NONE;
      if !ended || outcome != Committed {
        return;
      }
      var current, uncapped, voltage := Currents(ramp, newSupplier, newPort);
      updatedNew, updatedOld := Commit(newPort, newSupplier, current, uncapped, voltage);
    }

    /** When all charge goes while the battery is disconnected, the port is kept without a supplier;
        the next refresh then looks up the offer of no supplier, in front of the table. */
    method RetainThenFault() returns (first: Outcome, second: Outcome)
      requires Valid() && BoardInformed() && leftSafeMode && overridePort != OVERRIDE_DONT_CHARGE
      requires chargePort != PORT_NONE && chargeSupplier != SUPPLIER_NONE && LivePorts(Table()) == {}
      modifies this, available
      ensures first == Committed && second == Fault
    {
      hide Choose, Scan, IsCurrent, Cleared;
      ghost var m, x, offers, rejected := Table(), InUse(), 0, {};
      var w, keep := World((n, p) => true, n => true), (p, s, offer) => offer;
      NothingChosen(m, x);
      RoundOnce(m, x, w);
      var ended, request, swap;
      ended, first, request, swap, offers, rejected := Refresh(w, keep, 1);
      NothingChosen(m, InUse());
      RoundOnce(m, InUse(), w);
      ended, second, request, swap, offers, rejected := Refresh(w, keep, 1);
    }
  }
}
