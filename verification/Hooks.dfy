/** Calling the hooks of one type in priority order (common/hooks.c). */
module Hooks {

  const PRIO_FIRST: int := 1
  const PRIO_LAST: int := 9999

  /** A table gives the priority of each hook, in link order. */
  type Table = seq<int>

  ghost predicate InRange(table: Table) {
    forall i | 0 <= i < |table| :: PRIO_FIRST <= table[i] <= PRIO_LAST + 1
  }

  // ----- One round -----

  /** The lowest priority above `last` among the first k hooks; the limit when there is none. */
  function Lowest(table: Table, last: int, k: nat): (prio: int)
    requires k <= |table|
    ensures prio <= PRIO_LAST + 1
    ensures prio == PRIO_LAST + 1 || (prio > last && prio in table[..k])
    ensures forall i | 0 <= i < k && table[i] > last :: prio <= table[i] || table[i] > PRIO_LAST
  {
    if k == 0 then PRIO_LAST + 1
    else
      var prio := Lowest(table, last, k - 1);
      if table[k - 1] < prio && table[k - 1] > last then table[k - 1] else prio
  }

  /** The hooks with a priority, among the first k. */
  function With(table: Table, prio: int, k: nat): (hooks: seq<nat>)
    requires k <= |table|
    ensures forall a | 0 <= a < |hooks| :: hooks[a] < k && table[hooks[a]] == prio
    ensures forall a, b | 0 <= a < b < |hooks| :: hooks[a] < hooks[b]
    ensures forall i: nat | i < k && table[i] == prio :: i in hooks
  {
    if k == 0 then []
    else if table[k - 1] == prio then With(table, prio, k - 1) + [k - 1]
    else With(table, prio, k - 1)
  }

  /** The last priority and the calls made, after n rounds of the outer loop. */
  function After(table: Table, n: nat): (int, seq<nat>) {
    if n == 0 then (PRIO_FIRST - 1, [])
    else
      var (last, calls) := After(table, n - 1);
      var prio := Lowest(table, last, |table|);
      (prio, calls + With(table, prio, |table|))
  }

  // ----- What the rounds keep -----

  /** Ordered by priority, and among equals by link order. */
  ghost predicate Ordered(table: Table, calls: seq<nat>) {
    && (forall a | 0 <= a < |calls| :: calls[a] < |table|)
    && (forall a, b | 0 <= a < b < |calls| ::
          table[calls[a]] < table[calls[b]] || (table[calls[a]] == table[calls[b]] && calls[a] < calls[b]))
  }

  /** Exactly the hooks up to a priority were called, in order. */
  ghost predicate CalledUpTo(table: Table, last: int, calls: seq<nat>) {
    && Ordered(table, calls)
    && PRIO_FIRST - 1 <= last
    && (forall i: nat | i < |table| :: i in calls <==> PRIO_FIRST <= table[i] <= last)
  }

  lemma OneRound(table: Table, last: int, calls: seq<nat>)
    requires CalledUpTo(table, last, calls) && last <= PRIO_LAST
    ensures var prio := Lowest(table, last, |table|);
      prio > last && CalledUpTo(table, prio, calls + With(table, prio, |table|))
  {
    hide Lowest, With;
    var prio := Lowest(table, last, |table|);
    var more := With(table, prio, |table|);
    assert table[..|table|] == table;
    var all := calls + more;
    forall a, b | 0 <= a < b < |all|
      ensures table[all[a]] < table[all[b]] || (table[all[a]] == table[all[b]] && all[a] < all[b])
    {
      if b < |calls| {
        assert all[a] == calls[a] && all[b] == calls[b];
      } else if a >= |calls| {
        assert all[a] == more[a - |calls|] && all[b] == more[b - |calls|];
      } else {
        assert all[a] == calls[a] && calls[a] in calls && all[b] == more[b - |calls|];
      }
    }
    forall i: nat | i < |table| ensures i in all <==> PRIO_FIRST <= table[i] <= prio {
      if last < table[i] <= prio {
        assert table[i] == prio;
      }
    }
  }

  lemma {:induction false} DistinctIndices(calls: seq<nat>, n: nat)
    requires forall a | 0 <= a < |calls| :: calls[a] < n
    requires forall a, b | 0 <= a < b < |calls| :: calls[a] != calls[b]
    ensures |calls| <= n && (|calls| == n ==> forall i: nat | i < n :: i in calls)
  {
    if n == 0 {
    } else if n - 1 in calls {
      var k :| 0 <= k < |calls| && calls[k] == n - 1;
      var rest := calls[..k] + calls[k + 1..];
      assert forall a | 0 <= a < |rest| :: rest[a] == calls[if a < k then a else a + 1];
      DistinctIndices(rest, n - 1);
      forall i: nat | |calls| == n && i < n ensures i in calls {
        if i < n - 1 {
          assert i in rest;
        }
      }
    } else {
      DistinctIndices(calls, n - 1);
    }
  }

  /** While a hook has not been called, another round is due and gets further. */
  lemma Progress(table: Table, last: int, calls: seq<nat>)
    requires InRange(table) && CalledUpTo(table, last, calls)
    ensures |calls| <= |table|
    ensures |calls| == |table| <==> forall i: nat | i < |table| :: i in calls
    ensures |calls| < |table| ==> last <= PRIO_LAST
  {
    DistinctIndices(calls, |table|);
    if forall i: nat | i < |table| :: i in calls {
      DistinctCover(calls, |table|);
    }
  }

  lemma {:induction false} DistinctCover(calls: seq<nat>, n: nat)
    requires forall i: nat | i < n :: i in calls
    ensures |calls| >= n
  {
    if n > 0 {
      var last: nat := n - 1;
      assert last in calls;
      var k :| 0 <= k < |calls| && calls[k] == last;
      var rest := calls[..k] + calls[k + 1..];
      forall i: nat | i < n - 1 ensures i in rest {
        assert i in calls;
        var j :| 0 <= j < |calls| && calls[j] == i;
        assert rest[if j < k then j else j - 1] == i;
      }
      DistinctCover(rest, n - 1);
    }
  }

  lemma AfterStart(table: Table)
    ensures After(table, 0) == (PRIO_FIRST - 1, [])
  {}

  lemma AfterNext(table: Table, n: nat)
    ensures var (last, calls) := After(table, n);
      var prio := Lowest(table, last, |table|);
      After(table, n + 1) == (prio, calls + With(table, prio, |table|))
  {}

  lemma NothingCalled(table: Table)
    ensures CalledUpTo(table, PRIO_FIRST - 1, [])
  {}

  /** Lines 128-132. */
  method LowestRemaining(table: Table, last: int) returns (prio: int)
    ensures prio == Lowest(table, last, |table|)
  {
    prio := PRIO_LAST + 1;
    for p := 0 to |table|
      invariant prio == Lowest(table, last, p)
    {
      if table[p] < prio && table[p] > last {
        prio := table[p];
      }
    }
  }

  /** Lines 135-141. */
  method CallAll(table: Table, prio: int, before: seq<nat>) returns (calls: seq<nat>)
    ensures calls == before + With(table, prio, |table|)
  {
    calls := before;
    for p := 0 to |table|
      invariant calls == before + With(table, prio, p)
    {
      if table[p] == prio {
        calls := calls + [p];
      }
    }
  }

  /** The condition of the outer loop has become false (line 127). */
  ghost predicate Done(table: Table, n: nat) {
    |After(table, n).1| >= |table|
  }

  /** hook_notify (lines 110-142): with every priority in range, each hook is called exactly
      once, by priority, and in link order among equals. */
  method Notify(table: Table) returns (calls: seq<nat>)
    requires InRange(table) || (PRIO_LAST + 1) in table
    ensures InRange(table) ==> Ordered(table, calls) && |calls| == |table| && forall i: nat | i < |table| :: i in calls
    ensures exists n: nat :: Done(table, n) && After(table, n).1 == calls && forall k: nat | k < n :: !Done(table, k)
  {
    hide Ordered, Lowest, With, InRange, After;
    var last := PRIO_FIRST - 1;
    calls := [];
    AfterStart(table);
    ghost var n := 0;
    NothingCalled(table);
    if InRange(table) {
      Progress(table, last, calls);
    }
    while |calls| < |table|
      invariant last <= PRIO_LAST + 1 && After(table, n) == (last, calls) && forall k: nat | k < n :: !Done(table, k)
      invariant InRange(table) ==>
        && CalledUpTo(table, last, calls) && (|calls| < |table| ==> last <= PRIO_LAST)
        && |calls| <= |table| && (|calls| == |table| ==> forall i: nat | i < |table| :: i in calls)
      decreases PRIO_LAST + 1 - last, |table| - |calls|
    {
      assert !Done(table, n);
      AfterNext(table, n);
      NextRound(table, last);
      if InRange(table) {
        OneRound(table, last, calls);
      }
      last := LowestRemaining(table, last);
      calls := CallAll(table, last, calls);
      n := n + 1;
      if InRange(table) {
        Progress(table, last, calls);
      }
    }
    assert Done(table, n);
  }

  /** A round gets further, or calls the hooks at the limit. */
  lemma NextRound(table: Table, last: int)
    requires last <= PRIO_LAST + 1
    ensures var prio := Lowest(table, last, |table|);
      && prio <= PRIO_LAST + 1 && (last <= PRIO_LAST ==> prio > last) && (last == PRIO_LAST + 1 ==> prio == last)
      && ((PRIO_LAST + 1) in table ==> |With(table, PRIO_LAST + 1, |table|)| > 0)
  {
    if (PRIO_LAST + 1) in table {
      var i: nat :| i < |table| && table[i] == PRIO_LAST + 1;
      assert i in With(table, PRIO_LAST + 1, |table|);
    }
  }

  // ----- Priorities out of range -----

  /** A hook whose priority is out of range is never called, however many rounds are made. */
  lemma {:induction false} NeverCalled(table: Table, i: nat, n: nat)
    requires i < |table| && !(PRIO_FIRST <= table[i] <= PRIO_LAST + 1)
    ensures i !in After(table, n).1 && After(table, n).0 >= PRIO_FIRST - 1
  {
    hide After, Lowest, With;
    AfterStart(table);
    if n > 0 {
      AfterNext(table, n - 1);
      NeverCalled(table, i, n - 1);
    }
  }

  /** One such hook, and none right at the limit, and the outer loop never ends. */
  lemma NeverEnds(table: Table, i: nat, n: nat)
    requires i < |table| && !(PRIO_FIRST <= table[i] <= PRIO_LAST + 1) && (PRIO_LAST + 1) !in table
    ensures |After(table, n).1| < |table|
  {
    StaysOrdered(table, n);
    NeverCalled(table, i, n);
    DistinctIndices(After(table, n).1, |table|);
  }

  lemma {:induction false} WithNone(table: Table, prio: int, k: nat)
    requires prio !in table && k <= |table|
    ensures With(table, prio, k) == []
  {
    if k > 0 {
      WithNone(table, prio, k - 1);
    }
  }

  lemma {:induction false} StaysOrdered(table: Table, n: nat)
    requires (PRIO_LAST + 1) !in table
    ensures CalledUpTo(table, After(table, n).0, After(table, n).1) && After(table, n).0 <= PRIO_LAST + 1
  {
    hide After, CalledUpTo, Lowest, With;
    AfterStart(table);
    NothingCalled(table);
    if n > 0 {
      AfterNext(table, n - 1);
      StaysOrdered(table, n - 1);
      var (last, calls) := After(table, n - 1);
      if last <= PRIO_LAST {
        OneRound(table, last, calls);
      } else {
        WithNone(table, PRIO_LAST + 1, |table|);
        assert calls + With(table, PRIO_LAST + 1, |table|) == calls;
      }
    }
  }

  lemma {:induction false} ReachesLimit(table: Table, n: nat) returns (m: nat)
    requires After(table, n).0 <= PRIO_LAST + 1
    ensures After(table, m).0 == PRIO_LAST + 1
    decreases PRIO_LAST + 1 - After(table, n).0
  {
    hide Lowest, With, After;
    m := n;
    if After(table, n).0 <= PRIO_LAST {
      AfterNext(table, n);
      NextRound(table, After(table, n).0);
      m := ReachesLimit(table, n + 1);
    }
  }

  lemma {:induction false} GrowsAtLimit(table: Table, n: nat, k: nat)
    requires After(table, n).0 == PRIO_LAST + 1 && (PRIO_LAST + 1) in table
    ensures After(table, n + k).0 == PRIO_LAST + 1 && |After(table, n + k).1| >= k
  {
    hide Lowest, With, After;
    if k > 0 {
      GrowsAtLimit(table, n, k - 1);
      AfterNext(table, n + k - 1);
      NextRound(table, PRIO_LAST + 1);
    }
  }

  /** The outer loop ends if and only if every priority is in range, or a hook right at the limit is
      there to be called again in the place of those that are never reached. */
  lemma EndsIff(table: Table)
    ensures (exists n: nat :: |After(table, n).1| >= |table|) <==>
      (forall i | 0 <= i < |table| :: 1 <= table[i] <= 10000) || 10000 in table
  {
    hide After;
    if InRange(table) {
      AllCalledIff(table);
      var n: nat :| AllCalledAfter(table, n);
      assert |After(table, n).1| >= |table|;
    } else if (PRIO_LAST + 1) in table {
      AfterStart(table);
      var m := ReachesLimit(table, 0);
      GrowsAtLimit(table, m, |table|);
      assert |After(table, m + |table|).1| >= |table|;
    } else {
      var i: nat :| i < |table| && !(PRIO_FIRST <= table[i] <= PRIO_LAST + 1);
      forall n: nat ensures |After(table, n).1| < |table| {
        NeverEnds(table, i, n);
      }
    }
  }

  /** Some round calls every hook exactly once if and only if every priority is in range. */
  lemma AllCalledIff(table: Table)
    ensures InRange(table) <==> exists n: nat :: AllCalledAfter(table, n)
  {
    hide After;
    if InRange(table) {
      AfterStart(table);
      NothingCalled(table);
      var n := 0;
      Progress(table, After(table, 0).0, After(table, 0).1);
      while |After(table, n).1| < |table|
        invariant CalledUpTo(table, After(table, n).0, After(table, n).1) && After(table, n).0 <= PRIO_LAST + 1
        invariant |After(table, n).1| <= |table| && (|After(table, n).1| < |table| ==> After(table, n).0 <= PRIO_LAST)
        invariant |After(table, n).1| == |table| ==> forall i: nat | i < |table| :: i in After(table, n).1
        decreases PRIO_LAST + 1 - After(table, n).0
      {
        OneRound(table, After(table, n).0, After(table, n).1);
        AfterNext(table, n);
        n := n + 1;
        Progress(table, After(table, n).0, After(table, n).1);
      }
      assert AllCalledAfter(table, n);
    } else {
      var i: nat :| i < |table| && !(PRIO_FIRST <= table[i] <= PRIO_LAST + 1);
      forall n: nat ensures !AllCalledAfter(table, n) {
        NeverCalled(table, i, n);
        assert i !in After(table, n).1;
      }
    }
  }

  ghost predicate AllCalledAfter(table: Table, n: nat) {
    var calls := After(table, n).1;
    && |calls| == |table| && (forall i: nat | i < |table| :: i in calls)
  }
}
