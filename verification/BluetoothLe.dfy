/** Channel hopping of a Bluetooth LE connection (common/bluetooth_le.c), as in section 4.5.8 of
    Bluetooth Core 4.1 Vol 6 Part B. */
module BluetoothLe {
  import Arith

  const CHANNELS: nat := 37

  /** The bit of a data channel in the channel map. */
  predicate Used(channelMap: seq<bv8>, channel: nat)
    requires |channelMap| == 5 && channel < CHANNELS
  {
    channelMap[channel / 8] & (1 << (channel % 8)) != 0
  }

  /** The used channels below n, in ascending order. */
  ghost predicate IsUsedList(channelMap: seq<bv8>, n: nat, list: seq<nat>)
    requires |channelMap| == 5 && n <= CHANNELS
  {
    && (forall i | 0 <= i < |list| :: list[i] < n && Used(channelMap, list[i]))
    && (forall i, j | 0 <= i < j < |list| :: list[i] < list[j])
    && (forall c: nat | c < n && Used(channelMap, c) :: c in list)
  }

  /** There is one such list only. */
  lemma {:induction false} UsedListUnique(channelMap: seq<bv8>, n: nat, a: seq<nat>, b: seq<nat>)
    requires |channelMap| == 5 && n <= CHANNELS && IsUsedList(channelMap, n, a) && IsUsedList(channelMap, n, b)
    ensures a == b
    decreases n
  {
    hide Used;
    if n == 0 {
      assert |a| == 0 && |b| == 0;
    } else {
      var m := n - 1;
      WithoutLast(channelMap, m, a);
      WithoutLast(channelMap, m, b);
      if Used(channelMap, m) {
        UsedListUnique(channelMap, m, a[..|a| - 1], b[..|b| - 1]);
        assert a == a[..|a| - 1] + [m] && b == b[..|b| - 1] + [m];
      } else {
        UsedListUnique(channelMap, m, a, b);
      }
    }
  }

  lemma WithoutLast(channelMap: seq<bv8>, m: nat, a: seq<nat>)
    requires |channelMap| == 5 && m < CHANNELS && IsUsedList(channelMap, m + 1, a)
    ensures if Used(channelMap, m) then |a| > 0 && a[|a| - 1] == m && IsUsedList(channelMap, m, a[..|a| - 1])
      else IsUsedList(channelMap, m, a)
  {
    hide Used;
    if Used(channelMap, m) {
      assert m in a;
      var k :| 0 <= k < |a| && a[k] == m;
      assert forall i | 0 <= i < |a| - 1 :: a[i] < a[|a| - 1];
      forall c: nat | c < m && Used(channelMap, c) ensures c in a[..|a| - 1] {
        assert c in a;
      }
    }
  }

  lemma NoneUsed(channelMap: seq<bv8>)
    requires |channelMap| == 5
    ensures IsUsedList(channelMap, 0, [])
  {}

  lemma UsedListNext(channelMap: seq<bv8>, n: nat, list: seq<nat>)
    requires |channelMap| == 5 && n < CHANNELS && IsUsedList(channelMap, n, list)
    ensures IsUsedList(channelMap, n + 1, if Used(channelMap, n) then list + [n] else list)
  {
    hide Used;
    var next := if Used(channelMap, n) then list + [n] else list;
    forall c: nat | c < n + 1 && Used(channelMap, c) ensures c in next {
      if c < n {
        assert c in list;
      }
    }
  }

  datatype Hop = Channel(number: nat) | DivisionByZero

  class RemappingTable {
    const remappingIndex: array<nat>
    var numUsedChannels: nat
    var channelMap: seq<bv8>
    var hopIncrement: nat
    var lastUnmappedChannel: nat

    ghost predicate Valid()
      reads this, remappingIndex
    {
      && remappingIndex.Length == CHANNELS && |channelMap| == 5
      && numUsedChannels <= CHANNELS && lastUnmappedChannel < CHANNELS
      && IsUsedList(channelMap, CHANNELS, remappingIndex[..numUsedChannels])
    }

    constructor (bits: seq<bv8>, hop: nat)
      requires |bits| == 5
      ensures Valid() && channelMap == bits && hopIncrement == hop && lastUnmappedChannel == 0
    {
      remappingIndex := new nat[CHANNELS](_ => 0);
      channelMap := bits;
      new;
      FillRemappingTable(bits, hop);
    }

    /** fill_remapping_table (lines 53-66): the list of used channels, ascending. */
    method FillRemappingTable(bits: seq<bv8>, hop: nat)
      requires |bits| == 5 && remappingIndex.Length == CHANNELS
      modifies this, remappingIndex
      ensures Valid() && channelMap == bits && hopIncrement == hop && lastUnmappedChannel == 0
    {
      hide Used, IsUsedList;
      NoneUsed(bits);
      numUsedChannels := 0;
      lastUnmappedChannel := 0;
      hopIncrement := hop;
      for i := 0 to CHANNELS
        invariant numUsedChannels <= i && lastUnmappedChannel == 0 && hopIncrement == hop
        invariant IsUsedList(bits, i, remappingIndex[..numUsedChannels])
      {
        ghost var before := remappingIndex[..numUsedChannels];
        UsedListNext(bits, i, before);
        if Used(bits, i) {
          remappingIndex[numUsedChannels] := i;
          numUsedChannels := numUsedChannels + 1;
          assert remappingIndex[..numUsedChannels] == before + [i];
        }
      }
      channelMap := bits;
    }

    /** get_next_data_channel (lines 69-81). The division by zero is reached exactly when the map
        uses no channel at all. */
    method GetNextDataChannel() returns (next: Hop)
      requires Valid()
      modifies this`lastUnmappedChannel
      ensures Valid() && lastUnmappedChannel == (old(lastUnmappedChannel) + hopIncrement) % CHANNELS
      ensures next.DivisionByZero? <==> forall c: nat | c < CHANNELS :: !Used(channelMap, c)
      ensures next.Channel? ==>
        && next.number < CHANNELS && Used(channelMap, next.number)
        && if Used(channelMap, lastUnmappedChannel) then next.number == lastUnmappedChannel
           else exists list :: && IsUsedList(channelMap, CHANNELS, list) && |list| > 0
                               && next.number == list[lastUnmappedChannel % |list|]
    {
      hide Used;
      ghost var list := remappingIndex[..numUsedChannels];
      lastUnmappedChannel := (lastUnmappedChannel + hopIncrement) % CHANNELS;
      if Used(channelMap, lastUnmappedChannel) {
        return Channel(lastUnmappedChannel);
      }
      if numUsedChannels == 0 {
        assert list == [];
        return DivisionByZero;
      }
      next := Channel(remappingIndex[lastUnmappedChannel % numUsedChannels]);
      assert next.number == list[lastUnmappedChannel % |list|];
    }
  }

  // ----- A run of hops -----

  /** The unmapped channel n hops after `start`. */
  function After(start: nat, hop: nat, n: nat): nat {
    if n == 0 then start else (After(start, hop, n - 1) + hop) % CHANNELS
  }

  lemma {:induction false} AfterIs(start: nat, hop: nat, n: nat)
    requires start < CHANNELS
    ensures After(start, hop, n) == (start + n * hop) % CHANNELS
  {
    if n > 0 {
      AfterIs(start, hop, n - 1);
      var x := start + (n - 1) * hop;
      assert start + n * hop == x + hop;
      SumModulo(x, hop);
    }
  }

  lemma SumModulo(x: nat, y: nat)
    ensures (x % CHANNELS + y) % CHANNELS == (x + y) % CHANNELS
  {}

  /** The inverse of a hop increment modulo the number of channels. */
  function Inverse(hop: nat): (inv: nat)
    requires 5 <= hop <= 16
    ensures inv * hop % CHANNELS == 1
  {
    [15, 31, 16, 14, 33, 26, 27, 34, 20, 8, 5, 7][hop - 5]
  }

  /** Which of 37 hops reaches a channel. */
  function HopTo(start: nat, hop: nat, channel: nat): (k: nat)
    requires 5 <= hop <= 16
    ensures k < CHANNELS
  {
    (channel - start) * Inverse(hop) % CHANNELS
  }

  lemma HopReaches(start: nat, hop: nat, channel: nat)
    requires 5 <= hop <= 16 && start < CHANNELS && channel < CHANNELS
    ensures After(start, hop, HopTo(start, hop, channel)) == channel
  {
    hide After, Inverse;
    var d, inv, k := channel - start, Inverse(hop), HopTo(start, hop, channel);
    AfterIs(start, hop, k);
    var m, q := d * inv / CHANNELS, inv * hop / CHANNELS;
    assert k == d * inv - CHANNELS * m && inv * hop == CHANNELS * q + 1;
    ProductOf(d, inv, hop, m, q, k);
    Arith.DivModUnique(start + k * hop, CHANNELS, d * q - m * hop, channel);
  }

  lemma ProductOf(d: int, inv: int, hop: int, m: int, q: int, k: int)
    requires k == d * inv - CHANNELS * m && inv * hop == CHANNELS * q + 1
    ensures k * hop == (d * q - m * hop) * CHANNELS + d
  {
    calc {
      k * hop;
      d * inv * hop - CHANNELS * m * hop;
      { assert d * inv * hop == d * (inv * hop); }
      d * (CHANNELS * q + 1) - CHANNELS * m * hop;
      (d * q - m * hop) * CHANNELS + d;
    }
  }

  /** The hop that reaches a channel is the only one among 37. */
  lemma HopUnique(start: nat, hop: nat, n: nat)
    requires 5 <= hop <= 16 && start < CHANNELS && n < CHANNELS
    ensures HopTo(start, hop, After(start, hop, n)) == n
  {
    hide After, Inverse;
    AfterIs(start, hop, n);
    var inv, channel := Inverse(hop), After(start, hop, n);
    var m, q := (start + n * hop) / CHANNELS, inv * hop / CHANNELS;
    assert channel - start == n * hop - CHANNELS * m && inv * hop == CHANNELS * q + 1;
    ProductBack(n, hop, inv, m, q, channel - start);
    Arith.DivModUnique((channel - start) * inv, CHANNELS, n * q - m * inv, n);
  }

  lemma ProductBack(n: int, hop: int, inv: int, m: int, q: int, d: int)
    requires d == n * hop - CHANNELS * m && inv * hop == CHANNELS * q + 1
    ensures d * inv == (n * q - m * inv) * CHANNELS + n
  {
    calc {
      d * inv;
      n * hop * inv - CHANNELS * m * inv;
      { assert n * hop * inv == n * (inv * hop); }
      n * (CHANNELS * q + 1) - CHANNELS * m * inv;
      (n * q - m * inv) * CHANNELS + n;
    }
  }

  /** Any 37 consecutive hops visit every unmapped channel exactly once, wherever the run starts
      and however many hops were made before. */
  lemma EachChannelOnce(start: nat, hop: nat, before: nat, channel: nat)
    requires 5 <= hop <= 16 && start < CHANNELS && channel < CHANNELS
    ensures exists k :: before < k <= before + CHANNELS && After(start, hop, k) == channel
    ensures forall j, k | before < j <= before + CHANNELS && before < k <= before + CHANNELS
                          && After(start, hop, j) == channel && After(start, hop, k) == channel :: j == k
  {
    var first := After(start, hop, before + 1);
    AfterInRange(start, hop, before + 1);
    HopReaches(first, hop, channel);
    var k := HopTo(first, hop, channel);
    AfterPlus(start, hop, before + 1, k);
    assert before < before + 1 + k <= before + CHANNELS;
    forall j, k | before < j <= before + CHANNELS && before < k <= before + CHANNELS
                  && After(start, hop, j) == channel && After(start, hop, k) == channel
      ensures j == k
    {
      AfterPlus(start, hop, before + 1, j - before - 1);
      AfterPlus(start, hop, before + 1, k - before - 1);
      HopUnique(first, hop, j - before - 1);
      HopUnique(first, hop, k - before - 1);
    }
  }

  lemma AfterInRange(start: nat, hop: nat, n: nat)
    requires start < CHANNELS
    ensures After(start, hop, n) < CHANNELS
  {}

  lemma {:induction false} AfterPlus(start: nat, hop: nat, a: nat, b: nat)
    ensures After(start, hop, a + b) == After(After(start, hop, a), hop, b)
  {
    if b > 0 {
      AfterPlus(start, hop, a, b - 1);
    }
  }

  // ----- The map in plain terms -----

  /** Channel 8 i + k is bit k of byte i, the lowest first. */
  lemma UsedIsBit(channelMap: seq<bv8>, i: nat, k: nat)
    requires |channelMap| == 5 && k < 8 && 8 * i + k < 37
    ensures Used(channelMap, 8 * i + k) <==> channelMap[i] & [1, 2, 4, 8, 16, 32, 64, 128][k] != 0
  {
    Arith.DivModUnique(8 * i + k, 8, i, k);
    if k == 0 {} else if k == 1 {} else if k == 2 {} else if k == 3 {}
    else if k == 4 {} else if k == 5 {} else if k == 6 {} else {}
  }
}
