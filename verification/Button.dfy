/** Button debouncing on deferred calls (common/button.c, common/hooks.c): interrupts, the two
    deferred routines of the hook task, and a clock that also runs inside them. */
module Button {
  import opened Arith

  /** Deferred delays are C ints. */
  const INT_MAX: nat := 0x7FFF_FFFF

  /** What can happen while the hook task is between two instructions of a routine. */
  datatype Event =
    | Tick(d: nat)
    | Interrupt(button: nat)

  /** A run: events, and the two deferred routines with the events that fall inside them. */
  datatype Step =
    | Outside(events: seq<Event>)
    | RunIrq(t: nat, read: seq<Event>, each: seq<seq<Event>>)
    | RunChange(t: nat, raw: seq<bool>, each: seq<seq<Event>>, last: seq<Event>)

  /** What events touch. */
  datatype View = View(clock: nat, pending: set<nat>, irqUntil: nat, lastIrq: seq<int>)

  /** A tick lets time pass; an interrupt of an enabled button (button_interrupt, lines 396-407) is
      pending and arms the bottom half. */
  function Happen(v: View, e: Event, disabled: seq<bool>): View {
    match e
    case Tick(d) => v.(clock := v.clock + d)
    case Interrupt(i) =>
      if i < |disabled| == |v.lastIrq| && !disabled[i] then
        v.(pending := v.pending + {i}, irqUntil := v.clock, lastIrq := v.lastIrq[i := v.clock])
      else v
  }

  function Play(v: View, events: seq<Event>, disabled: seq<bool>): View {
    if events == [] then v
    else Happen(Play(v, events[..|events| - 1], disabled), events[|events| - 1], disabled)
  }

  lemma PlayNext(v: View, events: seq<Event>, n: nat, disabled: seq<bool>)
    requires n < |events|
    ensures Play(v, events[..n + 1], disabled) == Happen(Play(v, events[..n], disabled), events[n], disabled)
  {
    hide Happen;
    assert events[..n + 1][..n] == events[..n];
  }

  /** What events can change: the clock runs, and interrupts are added. */
  ghost predicate Later(v: View, w: View, disabled: seq<bool>) {
    && w.clock >= v.clock && v.pending <= w.pending
    && (forall i | i in w.pending :: i in v.pending || (i < |disabled| && !disabled[i]))
    && |w.lastIrq| == |v.lastIrq|
    && (forall i | 0 <= i < |w.lastIrq| ::
          w.lastIrq[i] == v.lastIrq[i] || (i in w.pending && v.clock <= w.lastIrq[i] <= w.clock))
    && (w.irqUntil == v.irqUntil || w.irqUntil > 0) && (w.pending == v.pending || w.irqUntil > 0)
  }

  lemma LaterReflexive(v: View, disabled: seq<bool>)
    ensures Later(v, v, disabled)
  {}

  lemma LaterClock(v: View, w: View, disabled: seq<bool>)
    requires Later(v, w, disabled)
    ensures w.clock >= v.clock
  {}

  lemma LaterTransitive(u: View, v: View, w: View, disabled: seq<bool>)
    requires Later(u, v, disabled) && Later(v, w, disabled)
    ensures Later(u, w, disabled)
  {}

  ghost predicate Quiet(each: seq<seq<Event>>) {
    forall k | 0 <= k < |each| :: each[k] == []
  }

  class Buttons {
    const debounceUs: seq<nat>
    const disabled: seq<bool>

    /** Microseconds since boot. */
    var clock: nat
    const debounceTime: array<nat>
    const pressed: array<bool>
    var nextDeferred: nat
    var pending: set<nat>

    /** __deferred_until of button_irq_handler and button_change_deferred; 0 is not armed. */
    var irqUntil: nat
    var changeUntil: nat

    /** When a button last interrupted, the clock reading its last debounce started from, when it
        was last sampled, and the longest time a handler let pass between reading the clock and
        taking the pending interrupts. */
    ghost var lastIrq: seq<int>
    ghost var readAt: seq<int>
    ghost var sampledAt: seq<int>
    ghost var gap: int

    ghost predicate Shaped()
      reads this
    {
      && |debounceUs| == |disabled| == |lastIrq| == |readAt| == |sampledAt| == debounceTime.Length == pressed.Length
      && (forall i | 0 <= i < |debounceUs| :: debounceUs[i] <= INT_MAX)
      && clock > 0 && gap >= 0
    }

    ghost predicate IrqsSane()
      reads this`clock, this`lastIrq, this`pending
    {
      && (forall i | 0 <= i < |lastIrq| :: lastIrq[i] <= clock)
      && (forall i | i in pending :: i < |disabled| && !disabled[i])
    }

    /** Somebody waits for a debounce only with button_change_deferred armed. */
    ghost predicate Armed()
      reads this, debounceTime
    {
      forall i | 0 <= i < debounceTime.Length && debounceTime[i] != 0 :: changeUntil != 0
    }

    /** What keeps a stale nextDeferred harmless: seen from `now` it lies in the future only with
        the routine armed for then or later. */
    ghost predicate NextCovered(now: nat)
      reads this
    {
      && (nextDeferred > now ==> changeUntil != 0)
      && (changeUntil != 0 ==> changeUntil >= nextDeferred)
    }

    /** The routine runs when nextDeferred says, but for the time `lag` a handler let pass before
        it made the call. */
    ghost predicate ArmedFor(lag: int)
      reads this
    {
      changeUntil == nextDeferred + lag
    }

    /** A debounce is a full one exactly if the interrupt came no later than the clock reading it
        started from; it is never short by more than the gap of the handler. */
    ghost predicate Started(i: nat)
      requires Shaped() && i < debounceTime.Length
      reads this, debounceTime
    {
      && lastIrq[i] <= readAt[i] + gap
      && (if debounceTime[i] != 0 then debounceTime[i] == readAt[i] + debounceUs[i]
          else sampledAt[i] >= readAt[i] + debounceUs[i])
    }

    /** No interrupt is lost: it waits for the bottom half, or its debounce was started. */
    ghost predicate Accounted(i: nat)
      requires Shaped() && i < debounceTime.Length
      reads this, debounceTime
    {
      lastIrq[i] >= 0 && i !in pending ==> Started(i)
    }

    ghost predicate Times()
      requires Shaped()
      reads this, debounceTime
    {
      forall i | 0 <= i < debounceTime.Length :: debounceTime[i] <= clock + debounceUs[i] && Accounted(i)
    }

    ghost predicate Valid()
      reads this, debounceTime
    {
      && Shaped() && IrqsSane() && Armed() && NextCovered(clock) && Times()
      && (pending != {} ==> irqUntil != 0)
    }

    /** button_init (lines 232-238). */
    constructor (us: seq<nat>, off: seq<bool>, raw: seq<bool>, now: nat)
      requires |us| == |off| == |raw| && now > 0 && forall i | 0 <= i < |us| :: us[i] <= INT_MAX
      ensures Valid() && clock == now && debounceUs == us && disabled == off && gap == 0
      ensures nextDeferred == irqUntil == changeUntil == 0 && pending == {}
      ensures forall i | 0 <= i < debounceTime.Length :: debounceTime[i] == 0 && lastIrq[i] == -1
      ensures fresh(debounceTime) && fresh(pressed)
    {
      debounceUs, disabled, clock := us, off, now;
      debounceTime := new nat[|us|](_ => 0);
      pressed := new bool[|us|](i requires 0 <= i < |raw| => raw[i]);
      nextDeferred, pending, irqUntil, changeUntil := 0, {}, 0, 0;
      lastIrq, readAt, sampledAt, gap := seq(|us|, _ => -1), seq(|us|, _ => -1), seq(|us|, _ => -1), 0;
    }

    /** button_interrupt (lines 396-407). */
    method TakeInterrupt(i: nat)
      requires |lastIrq| == |disabled| && clock > 0
      modifies this`pending, this`irqUntil, this`lastIrq
      ensures if i < |disabled| && !disabled[i] then
          pending == old(pending) + {i} && lastIrq == old(lastIrq)[i := clock] && irqUntil == clock
        else
          pending == old(pending) && lastIrq == old(lastIrq) && irqUntil == old(irqUntil)
    {
      if i < |disabled| && !disabled[i] {
        pending := pending + {i};
        irqUntil := clock;
        lastIrq := lastIrq[i := clock];
      }
    }

    ghost function Now(): View
      reads this
    {
      View(clock, pending, irqUntil, lastIrq)
    }

    method Elapse(events: seq<Event>)
      requires |lastIrq| == |disabled| && clock > 0
      modifies this`clock, this`pending, this`irqUntil, this`lastIrq
      ensures Later(old(Now()), Now(), disabled) && Now() == Play(old(Now()), events, disabled)
      ensures (old(Shaped()) ==> Shaped()) && (old(IrqsSane()) ==> IrqsSane())
    {
      for n := 0 to |events|
        invariant |lastIrq| == |disabled| && Later(old(Now()), Now(), disabled)
        invariant Now() == Play(old(Now()), events[..n], disabled)
      {
        PlayNext(old(Now()), events, n, disabled);
        match events[n]
        case Tick(d) =>
          clock := clock + d;
        case Interrupt(i) =>
          TakeInterrupt(i);
      }
      assert events[..|events|] == events;
    }

    /** Events outside the routines. */
    method Wait(events: seq<Event>)
      requires Valid()
      modifies this`clock, this`pending, this`irqUntil, this`lastIrq
      ensures Valid() && Now() == Play(old(Now()), events, disabled)
    {
      Elapse(events);
    }

    /** hook_call_deferred (common/hooks.c:152-172) for button_change_deferred: the delay counts
        from when the call is made. */
    method CallChangeDeferred(us: nat)
      requires us <= INT_MAX && clock > 0
      modifies this`changeUntil
      ensures changeUntil == clock + us > 0
    {
      changeUntil := clock + us;
    }

    /** Lines 382-388, for one button. Whoever starts a debounce finds the routine armed. */
    method StartDebounce(now: nat, i: nat)
      requires Shaped() && NextCovered(now) && clock >= now && i < debounceTime.Length
      modifies this`changeUntil, this`nextDeferred, this`readAt, debounceTime
      ensures NextCovered(now) && changeUntil != 0
      ensures if old(nextDeferred) <= now || old(nextDeferred) > now + debounceUs[i] then
          nextDeferred == now + debounceUs[i] && ArmedFor(clock - now)
        else
          nextDeferred == old(nextDeferred) && changeUntil == old(changeUntil)
      ensures Shaped() && debounceTime[i] == now + debounceUs[i] && readAt == old(readAt)[i := now]
      ensures forall k | 0 <= k < debounceTime.Length && k != i :: debounceTime[k] == old(debounceTime[k])
    {
      debounceTime[i] := now + debounceUs[i];
      readAt := readAt[i := now];
      if nextDeferred <= now || nextDeferred > debounceTime[i] {
        nextDeferred := debounceTime[i];
        CallChangeDeferred(nextDeferred - now);
      }
    }

    /** The loop of button_irq_handler (lines 377-389), with events before each button. */
    method StartDebounces(now: nat, irqs: set<nat>, each: seq<seq<Event>>)
      requires Shaped() && Armed() && NextCovered(now) && clock >= now && |each| == debounceTime.Length
      requires forall i | i in irqs :: i < |disabled| && !disabled[i]
      requires pending == {} && IrqsSane()
      modifies this`clock, this`pending, this`irqUntil, this`lastIrq, this`changeUntil, this`nextDeferred, this`readAt
      modifies debounceTime
      ensures Shaped() && IrqsSane() && Armed() && NextCovered(now)
      ensures Later(old(Now()), Now(), disabled) && |readAt| == |old(readAt)|
      ensures (changeUntil == old(changeUntil) && nextDeferred == old(nextDeferred))
              || (ArmedWithin(clock - now) && exists i :: i in irqs && nextDeferred == now + debounceUs[i])
      ensures (forall i | i in irqs :: now < old(nextDeferred) <= now + debounceUs[i]) ==>
        changeUntil == old(changeUntil) && nextDeferred == old(nextDeferred)
      ensures (forall i | 0 <= i < debounceTime.Length :: debounceUs[i] > 0) ==>
        forall i | i in irqs :: nextDeferred <= now + debounceUs[i]
      ensures forall i | 0 <= i < debounceTime.Length ::
        && debounceTime[i] == (if i in irqs then now + debounceUs[i] else old(debounceTime[i]))
        && readAt[i] == (if i in irqs then now else old(readAt[i]))
      ensures Quiet(each) ==> Now() == old(Now())
    {
      hide Later, IrqsSane;
      LaterReflexive(Now(), disabled);
      ghost var lag, last := 0, 0;
      for i := 0 to debounceTime.Length
        invariant Shaped() && IrqsSane() && Armed() && NextCovered(now) && Later(old(Now()), Now(), disabled)
        invariant |readAt| == |old(readAt)|
        invariant (changeUntil == old(changeUntil) && nextDeferred == old(nextDeferred))
                  || (&& 0 <= lag <= clock - now && ArmedFor(lag)
                      && last in irqs && nextDeferred == now + debounceUs[last])
        invariant (forall k | k in irqs :: now < old(nextDeferred) <= now + debounceUs[k]) ==>
          changeUntil == old(changeUntil) && nextDeferred == old(nextDeferred)
        invariant (forall k | 0 <= k < debounceTime.Length :: debounceUs[k] > 0) ==>
          forall k | 0 <= k < i && k in irqs :: now < nextDeferred <= now + debounceUs[k]
        invariant forall k | 0 <= k < debounceTime.Length ::
          && debounceTime[k] == (if k < i && k in irqs then now + debounceUs[k] else old(debounceTime[k]))
          && readAt[k] == (if k < i && k in irqs then now else old(readAt[k]))
        invariant (forall k | 0 <= k < i :: each[k] == []) ==> Now() == old(Now())
      {
        ghost var v := Now();
        Elapse(each[i]);
        LaterTransitive(old(Now()), v, Now(), disabled);
        LaterClock(v, Now(), disabled);
        if i in irqs && !disabled[i] {
          if nextDeferred <= now || nextDeferred > now + debounceUs[i] {
            lag, last := clock - now, i;
          }
          StartDebounce(now, i);
        }
      }
    }

    ghost predicate ArmedWithin(most: int)
      reads this
    {
      exists lag :: 0 <= lag <= most && ArmedFor(lag)
    }

    /** button_irq_handler (lines 372-390), called by the hook task that read the clock at t
        (common/hooks.c:192-206). The events in `read` fall between the handler's clock reading and
        its taking of the pending interrupts. */
    method RunIrq(t: nat, read: seq<Event>, each: seq<seq<Event>>) returns (ghost taken: set<nat>)
      requires Valid() && irqUntil != 0 && irqUntil < t <= clock && |each| == debounceTime.Length
      modifies this, debounceTime
      ensures Valid() && sampledAt == old(sampledAt) && forall i | i in taken :: i < |debounceUs|
      ensures var w := Play(old(Now().(irqUntil := 0)), read, disabled);
        && old(pending) <= taken == w.pending && gap == Max(old(gap), w.clock - old(clock))
        && Later(w.(pending := {}), Now(), disabled)
        && (Quiet(each) ==> Now() == w.(pending := {}))
      ensures (changeUntil == old(changeUntil) && nextDeferred == old(nextDeferred))
              || (&& ArmedWithin(clock - old(clock))
                  && exists i :: i in taken && nextDeferred == old(clock) + debounceUs[i])
      ensures (forall i | i in taken :: old(clock) < old(nextDeferred) <= old(clock) + debounceUs[i]) ==>
        changeUntil == old(changeUntil) && nextDeferred == old(nextDeferred)
      ensures (forall i | 0 <= i < debounceTime.Length :: debounceUs[i] > 0) ==>
        forall i | i in taken :: nextDeferred <= debounceTime[i]
      ensures forall i | 0 <= i < debounceTime.Length ::
        debounceTime[i] == if i in taken then old(clock) + debounceUs[i] else old(debounceTime[i])
      ensures forall i | i in taken && i !in pending ::
        debounceTime[i] >= lastIrq[i] + debounceUs[i] <==> lastIrq[i] <= old(clock)
    {
      irqUntil := 0;
      var now := clock;
      Elapse(read);
      ghost var took, w := clock, Now();
      var irqs := pending;
      pending := {};
      taken := irqs;
      gap := Max(gap, took - now);
      StartDebounces(now, irqs, each);
      forall i | 0 <= i < debounceTime.Length ensures debounceTime[i] <= clock + debounceUs[i] && Accounted(i) {
        assert old(Accounted(i)) && old(debounceTime[i] <= clock + debounceUs[i]);
      }
    }

    /** Lines 313-348, for a button that is due. */
    method Sample(i: nat, isPressed: bool)
      requires i < |sampledAt| == debounceTime.Length == pressed.Length
      modifies this`sampledAt, debounceTime, pressed
      ensures debounceTime[i] == 0 && pressed[i] == isPressed && sampledAt == old(sampledAt)[i := clock]
      ensures forall k | 0 <= k < debounceTime.Length && k != i ::
        debounceTime[k] == old(debounceTime[k]) && pressed[k] == old(pressed[k])
    {
      if pressed[i] != isPressed {
        pressed[i] := isPressed;
      }
      debounceTime[i] := 0;
      sampledAt := sampledAt[i := clock];
    }

    /** The loop of button_change_deferred (lines 307-360), with events before each button: samples
        the buttons that are due, and finds the soonest of the others. */
    method SampleDue(now: nat, raw: seq<bool>, each: seq<seq<Event>>) returns (soonest: nat)
      requires Shaped() && IrqsSane() && clock >= now && |raw| == |each| == debounceTime.Length
      requires forall i | 0 <= i < debounceTime.Length :: debounceTime[i] <= now + INT_MAX
      modifies this`sampledAt, this`clock, this`pending, this`irqUntil, this`lastIrq, debounceTime, pressed
      ensures Shaped() && IrqsSane() && Later(old(Now()), Now(), disabled) && (Quiet(each) ==> Now() == old(Now()))
      ensures soonest == 0 || now < soonest <= now + INT_MAX
      ensures forall i | 0 <= i < debounceTime.Length && debounceTime[i] != 0 :: 0 < soonest <= debounceTime[i]
      ensures soonest != 0 ==> soonest in debounceTime[..]
      ensures forall i | 0 <= i < debounceTime.Length ::
        if 0 < old(debounceTime[i]) <= now then
          debounceTime[i] == 0 && pressed[i] == raw[i] && now <= sampledAt[i] <= clock
        else
          debounceTime[i] == old(debounceTime[i]) && pressed[i] == old(pressed[i]) && sampledAt[i] == old(sampledAt[i])
    {
      hide Later, IrqsSane;
      LaterReflexive(Now(), disabled);
      soonest := 0;
      ghost var at := 0;
      for i := 0 to debounceTime.Length
        modifies this`sampledAt, this`clock, this`pending, this`irqUntil, this`lastIrq, debounceTime, pressed
        invariant Shaped() && IrqsSane() && clock >= now && Later(old(Now()), Now(), disabled)
        invariant (forall k | 0 <= k < i :: each[k] == []) ==> Now() == old(Now())
        invariant soonest != 0 ==> 0 <= at < i && debounceTime[at] == soonest
        invariant soonest == 0 || now < soonest <= now + INT_MAX
        invariant forall k | 0 <= k < i && debounceTime[k] != 0 :: 0 < soonest <= debounceTime[k]
        invariant forall k | i <= k < debounceTime.Length ::
          debounceTime[k] == old(debounceTime[k]) && pressed[k] == old(pressed[k]) && sampledAt[k] == old(sampledAt[k])
        invariant forall k | 0 <= k < i ::
          if 0 < old(debounceTime[k]) <= now then
            debounceTime[k] == 0 && pressed[k] == raw[k] && now <= sampledAt[k] <= clock
          else
            && debounceTime[k] == old(debounceTime[k]) && pressed[k] == old(pressed[k])
            && sampledAt[k] == old(sampledAt[k])
      {
        ghost var v := Now();
        Elapse(each[i]);
        LaterTransitive(old(Now()), v, Now(), disabled);
        LaterClock(v, Now(), disabled);
        if debounceTime[i] != 0 {
          if debounceTime[i] <= now {
            Sample(i, raw[i]);
          } else {
            at := if soonest == 0 || debounceTime[i] < soonest then i else at;
            soonest := if soonest == 0 || debounceTime[i] < soonest then debounceTime[i] else soonest;
          }
        }
      }
    }

    /** button_change_deferred (lines 300-367). */
    method RunChange(t: nat, raw: seq<bool>, each: seq<seq<Event>>, last: seq<Event>)
      requires Valid() && changeUntil != 0 && changeUntil < t <= clock && |raw| == |each| == debounceTime.Length
      modifies this, debounceTime, pressed
      ensures Valid() && gap == old(gap) && Later(old(Now()), Now(), disabled)
      ensures Quiet(each) && last == [] ==> Now() == old(Now())
      ensures if forall i | 0 <= i < debounceTime.Length :: debounceTime[i] == 0 then
          changeUntil == 0 && nextDeferred == old(nextDeferred)
        else
          && ArmedFor(clock - old(clock)) && nextDeferred in debounceTime[..]
          && forall i | 0 <= i < debounceTime.Length && debounceTime[i] != 0 :: nextDeferred <= debounceTime[i]
      ensures forall i | 0 <= i < debounceTime.Length ::
        if 0 < old(debounceTime[i]) <= old(clock) then
          debounceTime[i] == 0 && pressed[i] == raw[i] && old(clock) <= sampledAt[i] <= clock
        else
          debounceTime[i] == old(debounceTime[i]) && pressed[i] == old(pressed[i]) && sampledAt[i] == old(sampledAt[i])
    {
      changeUntil := 0;
      var now := clock;
      var soonest := SampleDue(now, raw, each);
      if soonest != 0 {
        nextDeferred := soonest;
        Elapse(last);
        CallChangeDeferred(nextDeferred - now);
      }
      forall i | 0 <= i < debounceTime.Length ensures debounceTime[i] <= clock + debounceUs[i] && Accounted(i) {
        assert old(Accounted(i)) && old(debounceTime[i] <= clock + debounceUs[i]);
      }
    }

    /** Every interleaving of clock, interrupts and the hook task keeps a pending debounce armed and
        every interrupt accounted for; the gap by which a debounce can fall short is the longest
        time between a handler's clock reading and its taking of the interrupts. A routine the hook
        task would not call is passed over. */
    method Run(steps: seq<Step>, ghost most: nat)
      requires Valid()
      requires forall s | s in steps && s.RunIrq? :: Duration(s.read) <= most
      modifies this, debounceTime, pressed
      ensures Valid() && clock >= old(clock) && gap <= Max(old(gap), most)
    {
      for n := 0 to |steps|
        invariant Valid() && clock >= old(clock) && gap <= Max(old(gap), most)
      {
        assert steps[n] in steps;
        match steps[n]
        case Outside(events) =>
          PlayTakes(Now(), events, disabled);
          Wait(events);
        case RunIrq(t, read, each) =>
          if irqUntil != 0 && irqUntil < t <= clock && |each| == debounceTime.Length {
            PlayTakes(Now().(irqUntil := 0), read, disabled);
            var _ := RunIrq(t, read, each);
          }
        case RunChange(t, raw, each, last) =>
          if changeUntil != 0 && changeUntil < t <= clock && |raw| == |each| == debounceTime.Length {
            RunChange(t, raw, each, last);
          }
      }
    }
  }

  function Duration(events: seq<Event>): nat {
    if events == [] then 0
    else
      var e := events[|events| - 1];
      Duration(events[..|events| - 1]) + if e.Tick? then e.d else 0
  }

  lemma {:induction false} PlayTakes(v: View, events: seq<Event>, disabled: seq<bool>)
    ensures Play(v, events, disabled).clock == v.clock + Duration(events)
  {
    if events != [] {
      PlayTakes(v, events[..|events| - 1], disabled);
    }
  }

  /** The gap is really reached: with the routine already armed for an earlier bounce, an edge that
      falls e microseconds after the handler's clock reading is sampled e microseconds early. */
  method EarlySample(d: nat, e: nat) returns (b: Buttons)
    requires 2 <= d <= INT_MAX && e <= d
    ensures b.Valid() && fresh(b) && |b.debounceUs| == 1 && b.debounceUs[0] == d && b.gap == e
    ensures b.pending == {} && b.debounceTime[0] == 0 && b.sampledAt[0] == b.lastIrq[0] + d - e
  {
    hide Play, Later;
    b := EarlierBounce(d);
    PlayBoth(b.Now().(irqUntil := 0), Tick(e), Interrupt(0), [false]);
    var _ := b.RunIrq(3, [Tick(e), Interrupt(0)], [[]]);
    PlayOne(b.Now(), Tick(d - e), [false]);
    b.Wait([Tick(d - e)]);
    b.RunChange(3 + d, [true], [[]], []);
  }

  /** One bounce handled at 2, and another pending at 3. */
  method EarlierBounce(d: nat) returns (b: Buttons)
    requires 2 <= d <= INT_MAX
    ensures b.Valid() && fresh(b) && fresh(b.debounceTime) && fresh(b.pressed)
    ensures b.debounceUs == [d] && b.disabled == [false] && b.gap == 0 && b.debounceTime[0] == 2 + d
    ensures b.Now() == View(3, {0}, 2, [2]) && b.changeUntil == b.nextDeferred == 2 + d
  {
    hide Play, Later;
    b := new Buttons([d], [false], [false], 1);
    PlayBoth(b.Now(), Interrupt(0), Tick(1), [false]);
    b.Wait([Interrupt(0), Tick(1)]);
    PlayNone(b.Now().(irqUntil := 0), [false]);
    var _ := b.RunIrq(2, [], [[]]);
    PlayBoth(b.Now(), Interrupt(0), Tick(1), [false]);
    b.Wait([Interrupt(0), Tick(1)]);
  }

  lemma PlayNone(v: View, disabled: seq<bool>)
    ensures Play(v, [], disabled) == v
  {}

  lemma PlayOne(v: View, e: Event, disabled: seq<bool>)
    ensures Play(v, [e], disabled) == Happen(v, e, disabled)
  {
    PlayNext(v, [e], 0, disabled);
    assert [e][..1] == [e];
  }

  lemma PlayBoth(v: View, e: Event, f: Event, disabled: seq<bool>)
    ensures Play(v, [e, f], disabled) == Happen(Happen(v, e, disabled), f, disabled)
  {
    PlayNext(v, [e, f], 0, disabled);
    PlayNext(v, [e, f], 1, disabled);
    assert [e, f][..2] == [e, f];
  }
}
