/** What the charge manager chooses from, as a value (common/charge_manager.c): the offers of all
    suppliers on all ports, the best of them, and the rounds of the hunt for a port the board
    accepts. */
module ChargeMarket {
  import opened Arith

  const PORT_NONE: int := -1
  const SUPPLIER_NONE: int := -1
  const SUPPLIER_PD: int := 0
  const OVERRIDE_OFF: int := -1
  const OVERRIDE_DONT_CHARGE: int := -2

  /** Current in mA, voltage in mV. */
  datatype Charge = Charge(current: int, voltage: int)

  const NO_CHARGE: Charge := Charge(0, 0)

  function Power(c: Charge): int {
    c.current * c.voltage
  }

  /** offers[s][p] is what supplier s offers on port p. The RO image of a locked system cannot tell
      what a dual-role port can do. pdPower holds what the ports of a power delivery controller
      could provide, and dpsPort the port of dynamic PDO selection, if these are configured. */
  datatype Market = Market(
    priority: seq<int>,
    validPort: seq<bool>,
    dedicated: seq<bool>,
    lockedRo: bool,
    leftSafeMode: bool,
    dpsPort: int,
    pdPower: map<int, int>,
    offers: seq<seq<Charge>>)

  ghost predicate Shaped(m: Market) {
    && |m.offers| == |m.priority| && |m.dedicated| == |m.validPort|
    && forall s | 0 <= s < |m.offers| :: |m.offers[s]| == |m.validPort|
  }

  /** The override, the port and supplier in use, and whether a port was ever set. */
  datatype Setting = Setting(override: int, active: int, supplier: int, initialized: bool)

  ghost predicate Fits(x: Setting, m: Market) {
    && OVERRIDE_DONT_CHARGE <= x.override < |m.validPort|
    && PORT_NONE <= x.active < |m.validPort|
    && SUPPLIER_NONE <= x.supplier < |m.priority|
  }

  function Offer(m: Market, s: int, p: int): Charge {
    if 0 <= s < |m.offers| && 0 <= p < |m.offers[s]| then m.offers[s][p] else NO_CHARGE
  }

  /** get_candidate_port_power (lines 757-769). */
  function CandidatePower(m: Market, s: int, p: int): int {
    var own := Power(Offer(m, s, p));
    if p in m.pdPower && m.pdPower[p] > own then m.pdPower[p] else own
  }

  function Priority(m: Market, s: int): int {
    if 0 <= s < |m.priority| then m.priority[s] else 0
  }

  /** An offer that can be taken (lines 823-849), but for a choice of the override port. */
  predicate IsCandidate(m: Market, override: int, s: int, p: int) {
    && 0 <= s < |m.priority| && 0 <= p < |m.validPort| && m.validPort[p]
    && Offer(m, s, p).current != 0 && Offer(m, s, p).voltage != 0
    && ((p < |m.dedicated| && m.dedicated[p]) || override == p || m.lockedRo || !m.leftSafeMode)
  }

  // ----- The choice, declaratively -----

  /** An override port with charge leaves no other in the running. */
  ghost predicate Contender(m: Market, override: int, s: int, p: int) {
    && IsCandidate(m, override, s, p)
    && ((exists s' :: IsCandidate(m, override, s', override)) ==> p == override)
  }

  /** (s, p) ranks no lower than (t, q): by supplier priority (a low number ranks high), then
      by power, then by being the active port. */
  ghost predicate NoWorse(m: Market, active: int, s: int, p: int, t: int, q: int) {
    || Priority(m, s) < Priority(m, t)
    || (&& Priority(m, s) == Priority(m, t)
        && (|| CandidatePower(m, s, p) > CandidatePower(m, t, q)
            || (CandidatePower(m, s, p) == CandidatePower(m, t, q) && (q == active ==> p == active))))
  }

  /** Among equals the active port keeps its last supplier, any other port the first place. */
  ghost predicate BreaksTie(active: int, s: int, p: int, t: int, q: int) {
    if p == active then t <= s else s < t || (s == t && p <= q)
  }

  ghost predicate Outranks(m: Market, active: int, s: int, p: int, t: int, q: int) {
    NoWorse(m, active, s, p, t, q) && (NoWorse(m, active, t, q, s, p) ==> BreaksTie(active, s, p, t, q))
  }

  /** Lines 855-861: the scan comes to the port of dynamic PDO selection. */
  predicate DpsHit(m: Market, override: int) {
    override == OVERRIDE_OFF && IsCandidate(m, override, SUPPLIER_PD, m.dpsPort)
  }

  /** What takes the choice from that port: it is compared against the power of the best port the
      scan had found before. */
  ghost predicate Displaces(m: Market, active: int, t: int, q: int, before: int) {
    || Priority(m, t) < Priority(m, SUPPLIER_PD)
    || (&& Priority(m, t) == Priority(m, SUPPLIER_PD)
        && (CandidatePower(m, t, q) > before || (CandidatePower(m, t, q) == before && q == active)))
  }

  /** The best power among the first n ports of the PD supplier; -1 without a candidate. */
  ghost predicate IsPowerBefore(m: Market, override: int, n: int, power: int) {
    if exists q :: 0 <= q < n && IsCandidate(m, override, SUPPLIER_PD, q) then
      && (exists q :: && 0 <= q < n && IsCandidate(m, override, SUPPLIER_PD, q)
                      && power == CandidatePower(m, SUPPLIER_PD, q))
      && (forall q | 0 <= q < n && IsCandidate(m, override, SUPPLIER_PD, q) ::
            CandidatePower(m, SUPPLIER_PD, q) <= power)
    else power == -1
  }

  /** With a DPS port: it is chosen unless another supplier displaces it, and then the best of the
      other suppliers is. */
  ghost predicate DpsBest(m: Market, override: int, active: int, before: int, s: int, p: int) {
    if exists t, q :: t != SUPPLIER_PD && IsCandidate(m, override, t, q) && Displaces(m, active, t, q, before) then
      && s != SUPPLIER_PD && IsCandidate(m, override, s, p)
      && forall t, q | t != SUPPLIER_PD && IsCandidate(m, override, t, q) :: Outranks(m, active, s, p, t, q)
    else s == SUPPLIER_PD && p == m.dpsPort
  }

  /** What the scan of charge_manager_get_best_port promises, given the override and the active
      port. */
  ghost predicate Best(m: Market, override: int, active: int, s: int, p: int) {
    if override == OVERRIDE_DONT_CHARGE || !(exists t, q :: IsCandidate(m, override, t, q)) then
      s == SUPPLIER_NONE && p == PORT_NONE
    else if DpsHit(m, override) then
      exists before :: IsPowerBefore(m, override, m.dpsPort, before) && DpsBest(m, override, active, before, s, p)
    else
      Contender(m, override, s, p) && forall t, q | Contender(m, override, t, q) :: Outranks(m, active, s, p, t, q)
  }

  /** The promise leaves no choice. */
  lemma BestIsUnique(m: Market, override: int, active: int, s: int, p: int, t: int, q: int)
    requires Best(m, override, active, s, p) && Best(m, override, active, t, q)
    ensures s == t && p == q
  {
    hide CandidatePower, Priority, Displaces;
    if override == OVERRIDE_DONT_CHARGE || !(exists t', q' :: IsCandidate(m, override, t', q')) {
    } else if DpsHit(m, override) {
      var a :| IsPowerBefore(m, override, m.dpsPort, a) && DpsBest(m, override, active, a, s, p);
      var b :| IsPowerBefore(m, override, m.dpsPort, b) && DpsBest(m, override, active, b, t, q);
      PowerBeforeIsUnique(m, override, m.dpsPort, a, b);
      if s != SUPPLIER_PD {
        assert Outranks(m, active, s, p, t, q) && Outranks(m, active, t, q, s, p);
      }
    } else {
      assert Outranks(m, active, s, p, t, q) && Outranks(m, active, t, q, s, p);
    }
  }

  lemma PowerBeforeIsUnique(m: Market, override: int, n: int, a: int, b: int)
    requires IsPowerBefore(m, override, n, a) && IsPowerBefore(m, override, n, b)
    ensures a == b
  {
    hide CandidatePower, IsCandidate;
  }

  /** With charge on the override port, that port is chosen, with its own best supplier. */
  lemma OverrideIsChosen(m: Market, override: int, active: int, s: int, p: int)
    requires Best(m, override, active, s, p) && exists s' :: IsCandidate(m, override, s', override)
    ensures p == override && IsCandidate(m, override, s, p)
    ensures forall t | IsCandidate(m, override, t, override) ::
      || Priority(m, s) < Priority(m, t)
      || (Priority(m, s) == Priority(m, t) && CandidatePower(m, s, p) >= CandidatePower(m, t, p))
  {
    hide CandidatePower, Priority;
    forall t | IsCandidate(m, override, t, override) ensures NoWorse(m, active, s, p, t, p) {
      assert Contender(m, override, t, override);
    }
  }

  /** What is chosen can be taken: charge from a valid port that is dedicated, overridden to, or not
      to be told apart. */
  lemma ChosenCanBeTaken(m: Market, override: int, active: int, s: int, p: int)
    requires Shaped(m) && Best(m, override, active, s, p) && s != -1
    ensures override != -2 && 0 <= s < |m.priority| && 0 <= p < |m.validPort| && m.validPort[p]
    ensures m.dedicated[p] || override == p || m.lockedRo || !m.leftSafeMode
    ensures m.offers[s][p].current != 0 && m.offers[s][p].voltage != 0
  {}

  /** The promise in plain terms, where no DPS port is hit: nothing else that can be taken has a lower
      priority number, or at the same number a higher power, or at the same power comes first: the
      active port, with its last supplier, else the first supplier and port. But the override port
      goes before all others. */
  lemma NothingBetter(m: Market, override: int, active: int, s: int, p: int, t: nat, q: nat)
    requires Shaped(m) && Best(m, override, active, s, p) && override != -2
    requires t < |m.priority| && q < |m.validPort| && m.validPort[q]
    requires var d := m.dpsPort;
      && override == -1 && 0 <= d < |m.validPort| && m.validPort[d]
      && (m.dedicated[d] || m.lockedRo || !m.leftSafeMode) ==>
        m.offers[0][d].current == 0 || m.offers[0][d].voltage == 0
    requires m.offers[t][q].current != 0 && m.offers[t][q].voltage != 0
    requires m.dedicated[q] || override == q || m.lockedRo || !m.leftSafeMode
    ensures 0 <= s < |m.priority| && 0 <= p < |m.validPort| && (q == override ==> p == override)
    ensures p != override || q == override ==> m.priority[s] <= m.priority[t]
    ensures (p != override || q == override) && m.priority[s] == m.priority[t] ==>
      var mine, other := m.offers[s][p].current * m.offers[s][p].voltage,
                         m.offers[t][q].current * m.offers[t][q].voltage;
      var most, others := if p in m.pdPower then Max(m.pdPower[p], mine) else mine,
                          if q in m.pdPower then Max(m.pdPower[q], other) else other;
      && most >= others
      && (most == others ==> if p == active then q == active ==> t <= s
                             else q != active && (s < t || (s == t && p <= q)))
  {
    assert IsCandidate(m, override, t, q);
    if q == override {
      assert IsCandidate(m, override, t, override);
    }
    if p != override || q == override {
      assert Contender(m, override, t, q);
      assert Outranks(m, active, s, p, t, q);
    }
  }

  /** With an offer of PD, supplier 0, on the DPS port and no override, that port is chosen if PD
      outranks all suppliers, and is not if something that can be taken outranks PD. */
  lemma DpsIsChosen(m: Market, active: int, s: int, p: int)
    requires Shaped(m) && Best(m, -1, active, s, p)
    requires |m.priority| > 0 && 0 <= m.dpsPort < |m.validPort| && m.validPort[m.dpsPort]
    requires m.dedicated[m.dpsPort] || m.lockedRo || !m.leftSafeMode
    requires m.offers[0][m.dpsPort].current != 0 && m.offers[0][m.dpsPort].voltage != 0
    ensures 0 <= s < |m.priority|
    ensures (forall t | 1 <= t < |m.priority| :: m.priority[0] < m.priority[t]) ==> s == 0 && p == m.dpsPort
    ensures forall t, q | 0 <= t < |m.priority| && 0 <= q < |m.validPort| && m.validPort[q]
        && m.offers[t][q].current != 0 && m.offers[t][q].voltage != 0
        && (m.dedicated[q] || m.lockedRo || !m.leftSafeMode) && m.priority[t] < m.priority[0] ::
      s != 0 && m.priority[s] < m.priority[0]
  {
    hide CandidatePower;
    assert IsCandidate(m, -1, 0, m.dpsPort);
    var before :| IsPowerBefore(m, -1, m.dpsPort, before) && DpsBest(m, -1, active, before, s, p);
    forall t, q | IsCandidate(m, -1, t, q) && m.priority[t] < m.priority[0]
      ensures s != 0 && m.priority[s] < m.priority[0]
    {
      assert Displaces(m, active, t, q, before);
      assert Outranks(m, active, s, p, t, q);
    }
    forall t, q | && 0 <= t < |m.priority| && 0 <= q < |m.validPort| && m.validPort[q]
                  && m.offers[t][q].current != 0 && m.offers[t][q].voltage != 0
                  && (m.dedicated[q] || m.lockedRo || !m.leftSafeMode) && m.priority[t] < m.priority[0]
      ensures s != 0 && m.priority[s] < m.priority[0]
    {
      assert IsCandidate(m, -1, t, q);
    }
  }

  // ----- The scan -----

  datatype Found = Found(supplier: int, port: int, power: int)

  /** Lines 823-888 for one place of the table. */
  function Consider(m: Market, override: int, active: int, i: int, j: int, best: Found): Found {
    if !IsCandidate(m, override, i, j) then best
    else if override != OVERRIDE_OFF && override == best.port && override != j then best
    else if override == OVERRIDE_OFF && i == SUPPLIER_PD && j == m.dpsPort then Found(i, j, best.power)
    else
      var power := CandidatePower(m, i, j);
      if || best.supplier == SUPPLIER_NONE
         || Priority(m, i) < Priority(m, best.supplier)
         || (j == override && best.port != override)
         || (&& Priority(m, i) == Priority(m, best.supplier)
             && (power > best.power || (power == best.power && active == j)))
      then Found(i, j, power)
      else best
  }

  /** The best when the scan stands at place j of row i. The DPS port ends its row. */
  function Scanned(m: Market, override: int, active: int, i: nat, j: nat): Found
    requires Shaped(m) && j <= |m.validPort|
    decreases i, j
  {
    if j > 0 then
      var best := Scanned(m, override, active, i, j - 1);
      if DpsHit(m, override) && i == SUPPLIER_PD && j - 1 > m.dpsPort then best
      else Consider(m, override, active, i, j - 1, best)
    else if i > 0 then Scanned(m, override, active, i - 1, |m.validPort|)
    else Found(SUPPLIER_NONE, PORT_NONE, -1)
  }

  /** The scan has been at (s, p) when it stands at (i, j). */
  ghost predicate Seen(i: int, j: int, s: int, p: int) {
    s < i || (s == i && p < j)
  }

  ghost predicate BestSoFar(m: Market, override: int, active: int, i: int, j: int, best: Found) {
    if best.supplier == SUPPLIER_NONE then
      && best.port == PORT_NONE && best.power == -1
      && forall t, q | IsCandidate(m, override, t, q) :: !Seen(i, j, t, q)
    else
      && IsCandidate(m, override, best.supplier, best.port) && Seen(i, j, best.supplier, best.port)
      && best.power == CandidatePower(m, best.supplier, best.port)
      && (forall t, q | IsCandidate(m, override, t, q) && Seen(i, j, t, q) ::
            && (q == override ==> best.port == override)
            && ((best.port == override ==> q == override) ==>
                  Outranks(m, active, best.supplier, best.port, t, q)))
  }

  lemma ConsiderKeepsBest(m: Market, override: int, active: int, i: nat, j: nat, best: Found)
    requires BestSoFar(m, override, active, i, j, best)
    requires !(DpsHit(m, override) && i == SUPPLIER_PD && j == m.dpsPort)
    ensures BestSoFar(m, override, active, i, j + 1, Consider(m, override, active, i, j, best))
  {
    hide CandidatePower, Priority, Offer;
  }

  /** Behind the DPS port. */
  ghost predicate DpsSoFar(m: Market, override: int, active: int, before: int, i: int, j: int, best: Found) {
    if best.supplier == SUPPLIER_PD then
      && best == Found(SUPPLIER_PD, m.dpsPort, before)
      && (forall t, q | t != SUPPLIER_PD && IsCandidate(m, override, t, q) && Seen(i, j, t, q) ::
            !Displaces(m, active, t, q, before))
    else
      && IsCandidate(m, override, best.supplier, best.port) && Seen(i, j, best.supplier, best.port)
      && best.power == CandidatePower(m, best.supplier, best.port)
      && Displaces(m, active, best.supplier, best.port, before)
      && (forall t, q | t != SUPPLIER_PD && IsCandidate(m, override, t, q) && Seen(i, j, t, q) ::
            Outranks(m, active, best.supplier, best.port, t, q))
  }

  lemma ConsiderKeepsDps(m: Market, override: int, active: int, before: int, i: nat, j: nat, best: Found)
    requires DpsSoFar(m, override, active, before, i, j, best) && override == OVERRIDE_OFF && i > 0
    ensures DpsSoFar(m, override, active, before, i, j + 1, Consider(m, override, active, i, j, best))
  {
    hide CandidatePower, Priority, Offer;
  }

  lemma {:induction false} ScannedIsBest(m: Market, override: int, active: int, i: nat, j: nat)
    requires Shaped(m) && i <= |m.priority| && j <= |m.validPort| && override != OVERRIDE_DONT_CHARGE
    ensures !DpsHit(m, override) || !Seen(i, j, SUPPLIER_PD, m.dpsPort) ==>
      BestSoFar(m, override, active, i, j, Scanned(m, override, active, i, j))
    ensures DpsHit(m, override) && Seen(i, j, SUPPLIER_PD, m.dpsPort) ==>
      var before := Scanned(m, override, active, SUPPLIER_PD, m.dpsPort).power;
      DpsSoFar(m, override, active, before, i, j, Scanned(m, override, active, i, j))
    decreases i, j
  {
    hide Consider, IsCandidate, BestSoFar, DpsSoFar;
    CandidateInTable(m, override, SUPPLIER_PD, m.dpsPort);
    if j > 0 {
      ScannedIsBest(m, override, active, i, j - 1);
      var best := Scanned(m, override, active, i, j - 1);
      if !DpsHit(m, override) || !Seen(i, j, SUPPLIER_PD, m.dpsPort) {
        ConsiderKeepsBest(m, override, active, i, j - 1, best);
      } else if i > SUPPLIER_PD {
        var before := Scanned(m, override, active, SUPPLIER_PD, m.dpsPort).power;
        ConsiderKeepsDps(m, override, active, before, i, j - 1, best);
      } else {
        DpsRow(m, override, active, j - 1);
      }
    } else if i > 0 {
      ScannedIsBest(m, override, active, i - 1, |m.validPort|);
      NextRow(m, override, active, i - 1, Scanned(m, override, active, i, 0));
    } else {
      NothingSeen(m, override, active);
    }
  }

  lemma NothingSeen(m: Market, override: int, active: int)
    ensures BestSoFar(m, override, active, 0, 0, Found(SUPPLIER_NONE, PORT_NONE, -1))
    ensures forall p | IsCandidate(m, override, SUPPLIER_PD, p) :: !Seen(0, 0, SUPPLIER_PD, p)
  {}

  lemma DpsRow(m: Market, override: int, active: int, j: nat)
    requires Shaped(m) && j < |m.validPort| && DpsHit(m, override) && m.dpsPort <= j
    requires var before := Scanned(m, override, active, SUPPLIER_PD, m.dpsPort).power;
      m.dpsPort < j ==>
        DpsSoFar(m, override, active, before, SUPPLIER_PD, j, Scanned(m, override, active, SUPPLIER_PD, j))
    ensures var before := Scanned(m, override, active, SUPPLIER_PD, m.dpsPort).power;
      DpsSoFar(m, override, active, before, SUPPLIER_PD, j + 1, Scanned(m, override, active, SUPPLIER_PD, j + 1))
  {
    hide Offer, CandidatePower, Priority;
  }

  /** At the end of a row everything in it was seen. */
  lemma NextRow(m: Market, override: int, active: int, i: nat, best: Found)
    ensures BestSoFar(m, override, active, i, |m.validPort|, best) ==>
      BestSoFar(m, override, active, i + 1, 0, best)
    ensures forall before | DpsSoFar(m, override, active, before, i, |m.validPort|, best) ::
      DpsSoFar(m, override, active, before, i + 1, 0, best)
    ensures DpsHit(m, override) ==>
      (Seen(i, |m.validPort|, SUPPLIER_PD, m.dpsPort) <==> Seen(i + 1, 0, SUPPLIER_PD, m.dpsPort))
  {
    hide Offer, CandidatePower, Priority, Outranks, Displaces;
  }

  lemma CandidateInTable(m: Market, override: int, s: int, p: int)
    ensures IsCandidate(m, override, s, p) ==>
      0 <= s < |m.priority| && 0 <= p < |m.validPort| && Offer(m, s, p) != NO_CHARGE
  {}

  /** The supplier and port the scan ends with. */
  function Scan(m: Market, x: Setting): Choice
    requires Shaped(m)
  {
    if x.override == OVERRIDE_DONT_CHARGE then Choice(SUPPLIER_NONE, PORT_NONE)
    else
      var best := Scanned(m, x.override, x.active, |m.priority|, 0);
      Choice(best.supplier, best.port)
  }

  lemma ScanIsBest(m: Market, x: Setting)
    requires Shaped(m)
    ensures Scan(m, x).Choice? && Best(m, x.override, x.active, Scan(m, x).supplier, Scan(m, x).port)
  {
    if x.override != OVERRIDE_DONT_CHARGE {
      hide Scanned, CandidatePower, Priority, Offer;
      ScannedIsBest(m, x.override, x.active, |m.priority|, 0);
      if DpsHit(m, x.override) {
        PowerBefore(m, x.override, x.active);
      }
    }
  }

  lemma PowerBefore(m: Market, override: int, active: int)
    requires Shaped(m) && DpsHit(m, override)
    ensures IsPowerBefore(m, override, m.dpsPort, Scanned(m, override, active, SUPPLIER_PD, m.dpsPort).power)
  {
    hide Scanned, CandidatePower, Priority, Offer;
    ScannedIsBest(m, override, active, SUPPLIER_PD, m.dpsPort);
  }

  lemma ScannedNext(m: Market, override: int, active: int, i: nat, j: nat)
    requires Shaped(m) && j < |m.validPort|
    ensures !(DpsHit(m, override) && i == SUPPLIER_PD && j > m.dpsPort) ==>
      Scanned(m, override, active, i, j + 1) == Consider(m, override, active, i, j, Scanned(m, override, active, i, j))
  {}

  lemma {:induction false} RowEnds(m: Market, override: int, active: int, j: nat)
    requires Shaped(m) && DpsHit(m, override) && m.dpsPort < j <= |m.validPort|
    ensures Scanned(m, override, active, SUPPLIER_PD, j) == Scanned(m, override, active, SUPPLIER_PD, m.dpsPort + 1)
  {
    if j > m.dpsPort + 1 {
      RowEnds(m, override, active, j - 1);
    }
  }

  // ----- A disconnected battery -----

  /** A choice, or a read in front of the table: the supplier in use is none. */
  datatype Choice = Choice(supplier: int, port: int) | OutOfTable

  /** What charge_manager_get_best_port chooses (lines 798-910): with the battery disconnected the
      active port is retained, and its supplier as long as that offers anything. */
  function Choose(m: Market, x: Setting, disconnected: bool): (c: Choice)
    requires Shaped(m)
  {
    var best := Scan(m, x);
    ScanIsBest(m, x);
    if x.override == OVERRIDE_DONT_CHARGE || x.active == PORT_NONE || x.active == best.port || !disconnected then best
    else if x.supplier == SUPPLIER_NONE then OutOfTable
    else Choice(if Offer(m, x.supplier, x.active) != NO_CHARGE then x.supplier else best.supplier, x.active)
  }

  ghost predicate Live(m: Market, p: int) {
    exists s :: 0 <= s < |m.priority| && Offer(m, s, p) != NO_CHARGE
  }

  /** A connected battery leaves the choice to the scan. A disconnected one never switches away
      from the active port, unless charging is overridden altogether. */
  lemma ChosenPort(m: Market, x: Setting, disconnected: bool)
    requires Shaped(m) && Fits(x, m)
    ensures var c := Choose(m, x, disconnected);
      && (!disconnected ==> c.Choice? && Best(m, x.override, x.active, c.supplier, c.port))
      && (disconnected && x.active != PORT_NONE && x.override != OVERRIDE_DONT_CHARGE && c.Choice? ==>
            c.port == x.active)
      && (c.OutOfTable? ==> x.supplier == SUPPLIER_NONE && x.active != PORT_NONE && disconnected)
      && (disconnected && x.active != PORT_NONE && x.override != OVERRIDE_DONT_CHARGE && x.supplier != SUPPLIER_NONE
          && (m.offers[x.supplier][x.active].current != 0 || m.offers[x.supplier][x.active].voltage != 0) ==>
            c.Choice? && (c.supplier == x.supplier || Best(m, x.override, x.active, c.supplier, x.active)))
      && (c.Choice? ==>
            && SUPPLIER_NONE <= c.supplier < |m.priority| && PORT_NONE <= c.port < |m.validPort|
            && (c.port == PORT_NONE ==> c.supplier == SUPPLIER_NONE)
            && (c.port != PORT_NONE && !Live(m, c.port) ==> disconnected && c.port == x.active))
  {
    hide Scan, Outranks, Displaces, IsPowerBefore, CandidatePower, Priority, Offer;
    ScanIsBest(m, x);
    OfferIs(m, x.supplier, x.active);
    var best := Scan(m, x);
    CandidateInTable(m, x.override, best.supplier, best.port);
    if best.port != PORT_NONE {
      assert Live(m, best.port);
    }
  }

  lemma OfferIs(m: Market, s: int, p: int)
    requires Shaped(m)
    ensures 0 <= s < |m.priority| && 0 <= p < |m.validPort| ==> Offer(m, s, p) == m.offers[s][p]
  {}

  // ----- The hunt -----

  /** The answer of the board to the n-th offer, and what it says of the battery then. */
  datatype World = World(accepts: (nat, int) -> bool, disconnected: nat -> bool)

  /** How a refresh ends: the assertion says that a board must accept not to charge (line 965). */
  datatype Outcome = Committed | SafeMode | Fault | AssertionFailed

  datatype Stage =
    | Hunting(market: Market)
    | Ended(outcome: Outcome, choice: Choice, market: Market)

  predicate Unchanged(x: Setting, c: Choice) {
    x.initialized && c == Choice(x.supplier, x.active)
  }

  /** A rejected port offers nothing any more (lines 972-975). */
  function Clear(m: Market, port: int): (k: Market)
    requires Shaped(m)
    ensures Shaped(k) && k == m.(offers := k.offers) && |k.offers| == |m.offers|
    ensures forall s, p :: Offer(k, s, p) == if p == port then NO_CHARGE else Offer(m, s, p)
  {
    m.(offers := seq(|m.offers|, s requires 0 <= s < |m.offers| =>
                   seq(|m.validPort|, p requires 0 <= p < |m.validPort| =>
                         if p == port then NO_CHARGE else m.offers[s][p])))
  }

  /** One round of the loop (lines 931-978). */
  function Round(m: Market, x: Setting, w: World, n: nat): Stage
    requires Shaped(m)
  {
    var c := Choose(m, x, w.disconnected(n));
    if c.OutOfTable? then Ended(Fault, c, m)
    else if !m.leftSafeMode && c.port == PORT_NONE then Ended(SafeMode, c, m)
    else if Unchanged(x, c) || w.accepts(n, c.port) then Ended(Committed, c, m)
    else if c.port == PORT_NONE then Ended(AssertionFailed, c, m)
    else Hunting(Clear(m, c.port))
  }

  /** The loop after at most n rounds. */
  function After(m: Market, x: Setting, w: World, n: nat): (stage: Stage)
    requires Shaped(m)
    ensures Shaped(stage.market)
  {
    if n == 0 then Hunting(m)
    else
      var before := After(m, x, w, n - 1);
      if before.Hunting? then Round(before.market, x, w, n - 1) else before
  }

  /** The table without the offers of some ports. */
  ghost predicate Cleared(m: Market, k: Market, rejected: set<int>) {
    && k == m.(offers := k.offers)
    && forall s, p :: Offer(k, s, p) == if p in rejected then NO_CHARGE else Offer(m, s, p)
  }

  ghost predicate Refused(w: World, n: nat, p: int) {
    exists i: nat | i < n :: !w.accepts(i, p)
  }

  ghost predicate DisconnectedBefore(w: World, n: nat) {
    exists i: nat | i < n :: w.disconnected(i)
  }

  lemma AfterNone(m: Market, x: Setting)
    requires Shaped(m)
    ensures forall w :: After(m, x, w, 0) == Hunting(m)
  {}

  lemma AfterNext(m: Market, x: Setting, w: World, n: nat)
    requires Shaped(m) && After(m, x, w, n).Hunting?
    ensures After(m, x, w, n + 1) == Round(After(m, x, w, n).market, x, w, n)
  {}

  lemma {:induction false} AfterEnds(m: Market, x: Setting, w: World, k: nat, n: nat)
    requires Shaped(m) && k <= n && After(m, x, w, k).Ended?
    ensures After(m, x, w, n) == After(m, x, w, k)
  {
    hide Round;
    if k < n {
      AfterEnds(m, x, w, k, n - 1);
    }
  }

  lemma SameOffers(m: Market, k: Market)
    requires Shaped(m) && Shaped(k) && m == k.(offers := m.offers)
    requires forall s, p | 0 <= s < |m.priority| && 0 <= p < |m.validPort| :: Offer(m, s, p) == Offer(k, s, p)
    ensures m == k
  {
    forall s | 0 <= s < |m.offers| ensures m.offers[s] == k.offers[s] {
      forall p | 0 <= p < |m.validPort| ensures m.offers[s][p] == k.offers[s][p] {
        assert Offer(m, s, p) == Offer(k, s, p);
      }
    }
  }

  /** What every number of rounds keeps: the rejected ports, and no others, offer nothing any more,
      the board refused each of them, and where it ends the choice is made from what is left. Only
      while the battery is disconnected is a port offered again. */
  lemma {:induction false} AfterKeeps(m: Market, x: Setting, w: World, n: nat) returns (k: nat, rejected: set<int>)
    requires Shaped(m) && Fits(x, m)
    ensures var stage := After(m, x, w, n);
      && k <= n && (k == n <== stage.Hunting?) && (k < n <== stage.Ended?)
      && Cleared(m, stage.market, rejected) && |rejected| <= k
      && (forall p | p in rejected :: 0 <= p < |m.validPort| && Refused(w, k, p))
      && (|rejected| < k ==> DisconnectedBefore(w, k))
      && (stage.Ended? ==> EndsWith(x, w, k, stage))
  {
    hide Choose, Clear, Round, Cleared, Refused, DisconnectedBefore, EndsWith;
    if n == 0 {
      k, rejected := 0, {};
      NothingCleared(m);
    } else {
      k, rejected := AfterKeeps(m, x, w, n - 1);
      var before := After(m, x, w, n - 1);
      if before.Hunting? {
        if Round(before.market, x, w, k).Hunting? {
          rejected := RejectOne(m, before.market, x, w, k, rejected);
          k := k + 1;
        } else {
          AfterFewer(m, x, w, 0, n - 1);
          RoundEnds(before.market, x, w, k);
        }
      }
    }
  }

  /** What a round that does not end the hunt does. */
  lemma RoundHunts(m: Market, x: Setting, w: World, n: nat)
    requires Shaped(m) && Fits(x, m) && Round(m, x, w, n).Hunting?
    ensures var c := Choose(m, x, w.disconnected(n));
      && c.Choice? && 0 <= c.port < |m.validPort| && Round(m, x, w, n) == Hunting(Clear(m, c.port))
      && !w.accepts(n, c.port) && !Unchanged(x, c)
      && (!Live(m, c.port) ==> w.disconnected(n) && c.port == x.active)
      && (w.disconnected(n) && x.active != PORT_NONE && x.override != OVERRIDE_DONT_CHARGE ==> c.port == x.active)
  {
    hide Choose, Clear;
    ChosenPort(m, x, w.disconnected(n));
  }

  lemma RoundEnds(m: Market, x: Setting, w: World, n: nat)
    requires Shaped(m) && Fits(x, m) && Round(m, x, w, n).Ended?
    ensures EndsWith(x, w, n, Round(m, x, w, n)) && Round(m, x, w, n).market == m
  {
    hide Choose, Clear;
  }

  lemma RejectOne(m: Market, k: Market, x: Setting, w: World, n: nat, rejected: set<int>) returns (more: set<int>)
    requires Shaped(m) && Fits(x, m) && Shaped(k) && Cleared(m, k, rejected) && |rejected| <= n
    requires Round(k, x, w, n).Hunting? && (|rejected| < n ==> DisconnectedBefore(w, n))
    requires forall p | p in rejected :: 0 <= p < |m.validPort| && Refused(w, n, p)
    ensures Cleared(m, Round(k, x, w, n).market, more) && |more| <= n + 1
    ensures forall p | p in more :: 0 <= p < |m.validPort| && Refused(w, n + 1, p)
    ensures |more| < n + 1 ==> DisconnectedBefore(w, n + 1)
  {
    hide Choose, Clear, Round;
    RoundHunts(k, x, w, n);
    var port := Choose(k, x, w.disconnected(n)).port;
    ClearedMore(m, k, rejected, port);
    more := rejected + {port};
    assert port in rejected ==> !Live(k, port) && w.disconnected(n);
  }

  lemma NothingCleared(m: Market)
    ensures Cleared(m, m, {})
  {}

  lemma ClearedMore(m: Market, k: Market, rejected: set<int>, port: int)
    requires Shaped(k) && Cleared(m, k, rejected)
    ensures Cleared(m, Clear(k, port), rejected + {port})
  {}

  /** The ways out of the loop. */
  ghost predicate EndsWith(x: Setting, w: World, k: nat, stage: Stage)
    requires stage.Ended? && Shaped(stage.market)
  {
    && stage.choice == Choose(stage.market, x, w.disconnected(k))
    && (stage.outcome == Fault <==> stage.choice.OutOfTable?)
    && (stage.choice.Choice? ==>
          && (stage.outcome == SafeMode <==> !stage.market.leftSafeMode && stage.choice.port == PORT_NONE)
          && (stage.outcome == AssertionFailed ==> stage.choice.port == PORT_NONE && !w.accepts(k, PORT_NONE))
          && (stage.outcome == Committed ==> Unchanged(x, stage.choice) || w.accepts(k, stage.choice.port)))
  }

  /** The port and supplier in use are kept without asking the board, whatever it would answer; any
      other choice is offered to it, and in safe mode no port is no choice. */
  lemma OneRoundInPlainTerms(m: Market, x: Setting, w: World, s: int, p: int)
    requires Shaped(m) && Fits(x, m) && Choose(m, x, w.disconnected(0)) == Choice(s, p)
    ensures !m.leftSafeMode && p == -1 ==> After(m, x, w, 1) == Ended(SafeMode, Choice(s, p), m)
    ensures (m.leftSafeMode || p != -1) && x.initialized && x.active == p && x.supplier == s ==>
      After(m, x, w, 1) == Ended(Committed, Choice(s, p), m)
    ensures (m.leftSafeMode || p != -1) && !(x.initialized && x.active == p && x.supplier == s) ==>
      (After(m, x, w, 1) == Ended(Committed, Choice(s, p), m) <==> w.accepts(0, p))
  {
    hide Choose, Clear;
    RoundOnce(m, x, w);
  }

  // ----- When the hunt ends -----

  ghost predicate Ends(m: Market, x: Setting, w: World)
    requires Shaped(m)
  {
    exists n: nat :: After(m, x, w, n).Ended?
  }

  /** The ports that still offer something. */
  ghost function LivePorts(m: Market): set<int> {
    set p | 0 <= p < |m.validPort| && Live(m, p)
  }

  lemma ClearTakesPort(m: Market, port: int)
    requires Shaped(m)
    ensures LivePorts(Clear(m, port)) == LivePorts(m) - {port}
  {
    hide Offer;
    var k := Clear(m, port);
    forall p ensures Live(k, p) <==> p != port && Live(m, p) {
      if p != port {
        assert forall s :: Offer(k, s, p) == Offer(m, s, p);
      }
    }
  }

  /** In such a round a port that still offered something is taken out. */
  ghost predicate Moves(x: Setting, w: World, n: nat) {
    !w.disconnected(n) || x.active == PORT_NONE
  }

  ghost predicate MovesFrom(x: Setting, w: World, n: nat) {
    exists k: nat :: k >= n && Moves(x, w, k)
  }

  lemma RoundMoves(m: Market, x: Setting, w: World, n: nat)
    requires Shaped(m) && Fits(x, m) && Round(m, x, w, n).Hunting?
    ensures var k := Round(m, x, w, n).market;
      Fits(x, k) && LivePorts(k) <= LivePorts(m) && (Moves(x, w, n) ==> LivePorts(k) < LivePorts(m))
  {
    hide Choose, Clear, Round, Live;
    RoundHunts(m, x, w, n);
    var port := Choose(m, x, w.disconnected(n)).port;
    ClearTakesPort(m, port);
    assert Moves(x, w, n) ==> port in LivePorts(m);
  }

  lemma {:induction false} AfterFewer(m: Market, x: Setting, w: World, k: nat, n: nat)
    requires Shaped(m) && Fits(x, m) && k <= n && After(m, x, w, n).Hunting?
    ensures After(m, x, w, k).Hunting? && Fits(x, After(m, x, w, n).market)
    ensures LivePorts(After(m, x, w, n).market) <= LivePorts(After(m, x, w, k).market)
  {
    hide Round, LivePorts;
    if k < n {
      AfterFewer(m, x, w, k, n - 1);
      RoundMoves(After(m, x, w, n - 1).market, x, w, n - 1);
    } else if n > 0 {
      AfterFewer(m, x, w, 0, n);
    }
  }

  /** With the battery connected the hunt ends whatever the board answers, after at most one more
      round than there are ports with an offer. */
  lemma ConnectedEnds(m: Market, x: Setting, w: World)
    requires Shaped(m) && Fits(x, m) && forall n: nat :: !w.disconnected(n)
    ensures After(m, x, w, |LivePorts(m)| + 1).Ended?
  {
    if After(m, x, w, |LivePorts(m)| + 1).Hunting? {
      ConnectedShrinks(m, x, w, |LivePorts(m)| + 1);
      assert false;
    }
  }

  lemma {:induction false} ConnectedShrinks(m: Market, x: Setting, w: World, n: nat)
    requires Shaped(m) && Fits(x, m) && (forall n: nat :: !w.disconnected(n)) && After(m, x, w, n).Hunting?
    ensures |LivePorts(After(m, x, w, n).market)| + n <= |LivePorts(m)|
  {
    hide Round, LivePorts;
    if n > 0 {
      ConnectedShrinks(m, x, w, n - 1);
      AfterFewer(m, x, w, 0, n - 1);
      RoundMoves(After(m, x, w, n - 1).market, x, w, n - 1);
      Smaller(LivePorts(After(m, x, w, n).market), LivePorts(After(m, x, w, n - 1).market));
    }
  }

  lemma Smaller(a: set<int>, b: set<int>)
    requires a < b
    ensures |a| < |b|
  {
    assert b == a + (b - a) && |b| == |a| + |b - a|;
    assert b - a != {};
  }

  /** It ends as well when the battery keeps coming back. */
  lemma OftenConnectedEnds(m: Market, x: Setting, w: World)
    requires Shaped(m) && Fits(x, m) && forall n: nat :: MovesFrom(x, w, n)
    ensures Ends(m, x, w)
  {
    OftenConnectedFrom(m, x, w, 0);
  }

  lemma {:induction false} OftenConnectedFrom(m: Market, x: Setting, w: World, n: nat)
    requires Shaped(m) && Fits(x, m) && (forall n: nat :: MovesFrom(x, w, n))
    requires After(m, x, w, n).Hunting?
    ensures Ends(m, x, w)
    decreases |LivePorts(After(m, x, w, n).market)|
  {
    hide Round, LivePorts, Moves;
    assert MovesFrom(x, w, n);
    var k: nat :| k >= n && Moves(x, w, k);
    if After(m, x, w, k + 1).Hunting? {
      AfterFewer(m, x, w, n, k);
      RoundMoves(After(m, x, w, k).market, x, w, k);
      Smaller(LivePorts(After(m, x, w, k + 1).market), LivePorts(After(m, x, w, n).market));
      OftenConnectedFrom(m, x, w, k + 1);
    }
  }

  /** With the battery disconnected: charging is off, no port is in use, a supplier in use is
      missing, or the choice is what is in use anyway, at once or without the offers of its port. */
  ghost predicate EndsAnyway(m: Market, x: Setting)
    requires Shaped(m)
  {
    || x.override == OVERRIDE_DONT_CHARGE || x.active == PORT_NONE || x.supplier == SUPPLIER_NONE
    || Unchanged(x, Choose(m, x, true)) || Unchanged(x, Choose(Clear(m, x.active), x, true))
  }

  /** A round with the battery disconnected is about the active port. */
  lemma RetainedRound(m: Market, x: Setting, w: World, n: nat)
    requires Shaped(m) && Fits(x, m) && w.disconnected(n)
    requires x.override != OVERRIDE_DONT_CHARGE && x.active != PORT_NONE
    ensures Round(m, x, w, n).Hunting? <==>
      Choose(m, x, true).Choice? && !Unchanged(x, Choose(m, x, true)) && !w.accepts(n, x.active)
    ensures Round(m, x, w, n).Hunting? ==> Round(m, x, w, n) == Hunting(Clear(m, x.active))
  {
    hide Choose, Clear;
    ChosenPort(m, x, true);
  }

  /** Without the offers of the active port the choice is that port with somebody else's supplier. */
  lemma RetainedCleared(m: Market, x: Setting)
    requires Shaped(m) && Fits(x, m) && x.override != OVERRIDE_DONT_CHARGE && x.active != PORT_NONE
    ensures Choose(Clear(m, x.active), x, true).OutOfTable? <==> x.supplier == SUPPLIER_NONE
    ensures Clear(Clear(m, x.active), x.active) == Clear(m, x.active)
  {
    hide Scan, Offer;
    var k := Clear(m, x.active);
    ScanIsBest(k, x);
    var best := Scan(k, x);
    hide Outranks, Displaces, IsPowerBefore;
    CandidateInTable(k, x.override, best.supplier, best.port);
    ClearTwice(m, x.active);
  }

  lemma ClearTwice(m: Market, port: int)
    requires Shaped(m)
    ensures Clear(Clear(m, port), port) == Clear(m, port)
  {
    var a, b := Clear(m, port), Clear(Clear(m, port), port);
    forall s | 0 <= s < |m.offers| ensures a.offers[s] == b.offers[s] {}
  }

  lemma AnywayEnds(m: Market, x: Setting, w: World, k: nat)
    requires Shaped(m) && Fits(x, m) && After(m, x, w, k).Hunting? && forall n: nat | n >= k :: w.disconnected(n)
    requires EndsAnyway(After(m, x, w, k).market, x)
    ensures Ends(m, x, w)
  {
    hide Round, Choose, Clear;
    var at := After(m, x, w, k).market;
    AfterFewer(m, x, w, 0, k);
    if x.active == PORT_NONE {
      forall n: nat ensures MovesFrom(x, w, n) {
        assert Moves(x, w, n);
      }
      OftenConnectedEnds(m, x, w);
    } else if x.override == OVERRIDE_DONT_CHARGE {
      OffEnds(at, x, w, k);
      assert After(m, x, w, k + 1).Ended?;
    } else {
      RetainedRound(at, x, w, k);
      if After(m, x, w, k + 1).Hunting? {
        RetainedRound(Clear(at, x.active), x, w, k + 1);
        RetainedCleared(at, x);
        assert After(m, x, w, k + 2).Ended?;
      }
    }
  }

  lemma NotAnyway(m: Market, x: Setting)
    requires Shaped(m) && !EndsAnyway(m, x)
    ensures x.override != OVERRIDE_DONT_CHARGE && x.active != PORT_NONE && x.supplier != SUPPLIER_NONE
  {}

  lemma OffEnds(m: Market, x: Setting, w: World, n: nat)
    requires Shaped(m) && x.override == OVERRIDE_DONT_CHARGE
    ensures Round(m, x, w, n).Ended?
  {}

  lemma AcceptEnds(m: Market, x: Setting, w: World, n: nat)
    requires Shaped(m) && Fits(x, m) && w.disconnected(n) && w.accepts(n, x.active)
    requires x.override != OVERRIDE_DONT_CHARGE && x.active != PORT_NONE
    ensures Ends(m, x, w)
  {
    hide Round;
    var stage := After(m, x, w, n);
    if stage.Hunting? {
      AfterFewer(m, x, w, 0, n);
      RetainedRound(stage.market, x, w, n);
      assert After(m, x, w, n + 1).Ended?;
    }
  }

  /** Otherwise every round makes the same offer and changes nothing. */
  lemma {:induction false} Stuck(m: Market, x: Setting, w: World, k: nat, n: nat)
    requires Shaped(m) && Fits(x, m) && After(m, x, w, k).Hunting? && k < n
    requires forall n: nat | n >= k :: w.disconnected(n) && !w.accepts(n, x.active)
    requires !EndsAnyway(After(m, x, w, k).market, x)
    ensures After(m, x, w, n) == Hunting(Clear(After(m, x, w, k).market, x.active))
  {
    hide Round, Choose, Clear;
    var at := After(m, x, w, k).market;
    AfterFewer(m, x, w, 0, k);
    RetainedCleared(at, x);
    if n > k + 1 {
      Stuck(m, x, w, k, n - 1);
      RetainedRound(Clear(at, x.active), x, w, n - 1);
    } else {
      ChosenPort(at, x, true);
      RetainedRound(at, x, w, k);
    }
  }

  /** From a round on in which the battery stays disconnected, the hunt ends exactly if one of these
      conditions holds there or the board accepts the active port at some time. */
  lemma DisconnectedEndsIff(m: Market, x: Setting, w: World, k: nat)
    requires Shaped(m) && Fits(x, m) && After(m, x, w, k).Hunting? && forall n: nat | n >= k :: w.disconnected(n)
    ensures Ends(m, x, w) <==>
      EndsAnyway(After(m, x, w, k).market, x) || exists n: nat :: n >= k && w.accepts(n, x.active)
  {
    hide Round, EndsAnyway, After;
    var at := After(m, x, w, k).market;
    AfterFewer(m, x, w, 0, k);
    if EndsAnyway(at, x) {
      AnywayEnds(m, x, w, k);
    } else if n: nat :| n >= k && w.accepts(n, x.active) {
      NotAnyway(at, x);
      AcceptEnds(m, x, w, n);
    } else {
      forall n: nat ensures After(m, x, w, n).Hunting? {
        if n <= k {
          AfterFewer(m, x, w, n, k);
        } else {
          Stuck(m, x, w, k, n);
        }
      }
    }
  }

  /** With the battery disconnected all the time. */
  ghost predicate EndsOn(m: Market, x: Setting, accepts: (nat, int) -> bool)
    requires Shaped(m)
  {
    Ends(m, x, World(accepts, n => true))
  }

  /** So then it ends for every board exactly if one of the conditions holds before the first round. */
  lemma EveryBoardEndsIff(m: Market, x: Setting)
    requires Shaped(m) && Fits(x, m)
    ensures (forall accepts :: EndsOn(m, x, accepts)) <==> EndsAnyway(m, x)
  {
    hide EndsAnyway, Ends;
    AfterNone(m, x);
    forall accepts: (nat, int) -> bool | EndsAnyway(m, x) ensures EndsOn(m, x, accepts) {
      DisconnectedEndsIff(m, x, World(accepts, n => true), 0);
    }
    if !EndsAnyway(m, x) {
      var refuses := (n: nat, p: int) => p != x.active;
      DisconnectedEndsIff(m, x, World(refuses, n => true), 0);
      assert !EndsOn(m, x, refuses);
    }
  }

  /** When nothing is on offer, a disconnected battery retains the active port without a supplier. */
  lemma NothingChosen(m: Market, x: Setting)
    requires Shaped(m) && Fits(x, m) && LivePorts(m) == {}
    requires x.active != PORT_NONE && x.override != OVERRIDE_DONT_CHARGE
    ensures Choose(m, x, true) == if x.supplier == SUPPLIER_NONE then OutOfTable else Choice(SUPPLIER_NONE, x.active)
  {
    hide Scan, Outranks, Displaces, IsPowerBefore, CandidatePower, Priority, Offer;
    ScanIsBest(m, x);
    var best := Scan(m, x);
    CandidateInTable(m, x.override, best.supplier, best.port);
    assert best.port !in LivePorts(m);
    assert x.active !in LivePorts(m);
  }

  lemma RoundOnce(m: Market, x: Setting, w: World)
    requires Shaped(m)
    ensures After(m, x, w, 1) == Round(m, x, w, 0)
  {
    assert After(m, x, w, 0) == Hunting(m);
  }
}
