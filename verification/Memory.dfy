/** memcpy, memset and memmove (builtin/stdlib.c) over a byte memory indexed by address.
    The head and tail go byte by byte, the body word by word; a word is read whole before
    it is written. */
module Memory {

  /** The number of 32-bit addresses. The end of a buffer is an address too, so memory stops short
      of it. */
  const SPACE: int := 0x1_0000_0000

  /** A memory in which len bytes at dest are what the bytes at src were. */
  function Copied<T>(mem: seq<T>, dest: nat, src: nat, len: nat): (m: seq<T>)
    requires dest + len <= |mem| && src + len <= |mem|
    ensures |m| == |mem|
  {
    mem[..dest] + mem[src..src + len] + mem[dest + len..]
  }

  function Filled<T>(mem: seq<T>, dest: nat, value: T, len: nat): (m: seq<T>)
    requires dest + len <= |mem|
    ensures |m| == |mem|
  {
    mem[..dest] + seq(len, _ => value) + mem[dest + len..]
  }

  function WordDown(a: nat): nat {
    a / 4 * 4
  }

  /** Rounding up wraps to zero in the top word of the address space. */
  function WordUp(a: nat): (w: nat)
    requires a < SPACE
    ensures w % 4 == 0 && if a <= SPACE - 4 then a <= w < a + 4 else w == 0
  {
    (a + 3) % SPACE / 4 * 4
  }

  /** Where the byte-wise head of a forward copy stops (lines 301-312). */
  function ForwardHead(dest: nat, tail: nat, aligned: bool): (head: nat)
    requires dest <= tail < SPACE
    ensures head <= tail
    ensures head == tail || (aligned && head == WordUp(dest) && head <= WordDown(tail))
  {
    if !aligned || tail < WordUp(dest) then tail else WordUp(dest)
  }

  /** Every destination byte is the source byte, and every other byte is kept. */
  lemma CopiedAt<T>(mem: seq<T>, dest: nat, src: nat, len: nat, k: nat)
    requires dest + len <= |mem| && src + len <= |mem| && k < |mem|
    ensures Copied(mem, dest, src, len)[k] == if dest <= k < dest + len then mem[src + (k - dest)] else mem[k]
  {
    var low, mid := mem[..dest], mem[src..src + len];
    if k < dest {
      assert (low + mid)[k] == low[k];
    } else if k < dest + len {
      assert (low + mid)[k] == mid[k - dest];
    }
  }

  /** A forward copy in two pieces. */
  lemma CopiedUp<T>(mem: seq<T>, dest: nat, src: nat, a: nat, b: nat)
    requires dest + a + b <= |mem| && src + a + b <= |mem|
    requires dest <= src || src + a + b <= dest
    ensures Copied(Copied(mem, dest, src, a), dest + a, src + a, b) == Copied(mem, dest, src, a + b)
  {
    hide Copied;
    var m := Copied(mem, dest, src, a);
    var n := Copied(m, dest + a, src + a, b);
    var len := a + b;
    forall k | 0 <= k < |mem| ensures n[k] == if dest <= k < dest + len then mem[src + (k - dest)] else mem[k] {
      CopiedAt(m, dest + a, src + a, b, k);
      CopiedAt(mem, dest, src, a, k);
      if dest + a <= k < dest + a + b {
        CopiedAt(mem, dest, src, a, src + (k - dest));
      }
    }
    CopiedPointwise(mem, n, dest, src, len);
  }

  lemma CopiedNothing<T>(mem: seq<T>, dest: nat, src: nat)
    requires dest <= |mem| && src <= |mem|
    ensures Copied(mem, dest, src, 0) == mem
  {
    assert mem[src..src + 0] == [];
    assert mem[..dest] + [] + mem[dest..] == mem;
  }

  lemma CopiedPointwise<T>(mem: seq<T>, m: seq<T>, dest: nat, src: nat, len: nat)
    requires dest + len <= |mem| && src + len <= |mem| && |m| == |mem|
    requires forall k | 0 <= k < |mem| :: m[k] == if dest <= k < dest + len then mem[src + (k - dest)] else mem[k]
    ensures m == Copied(mem, dest, src, len)
  {
    hide Copied;
    forall k: nat | k < |mem| ensures m[k] == Copied(mem, dest, src, len)[k] {
      CopiedAt(mem, dest, src, len, k);
    }
  }

  method CopyByte<T>(mem: array<T>, d: nat, s: nat)
    requires d < mem.Length && s < mem.Length
    modifies mem
    ensures mem[..] == Copied(old(mem[..]), d, s, 1)
  {
    hide Copied;
    mem[d] := mem[s];
    CopiedPointwise(old(mem[..]), mem[..], d, s, 1);
  }

  /** One word assignment: four bytes are read, then four are written. */
  method CopyWord<T>(mem: array<T>, d: nat, s: nat)
    requires d + 4 <= mem.Length && s + 4 <= mem.Length
    modifies mem
    ensures mem[..] == Copied(old(mem[..]), d, s, 4)
  {
    hide Copied;
    mem[d], mem[d + 1], mem[d + 2], mem[d + 3] := mem[s], mem[s + 1], mem[s + 2], mem[s + 3];
    CopiedPointwise(old(mem[..]), mem[..], d, s, 4);
  }

  /** Lines 315-316 and 327-328: n bytes upwards. */
  method CopyBytesUp<T>(mem: array<T>, d0: nat, s0: nat, n: nat)
    requires d0 + n <= mem.Length && s0 + n <= mem.Length
    requires d0 <= s0 || s0 + n <= d0
    modifies mem
    ensures mem[..] == Copied(old(mem[..]), d0, s0, n)
  {
    hide Copied;
    var d, s := d0, s0;
    CopiedNothing(mem[..], d0, s0);
    while d < d0 + n
      invariant d0 <= d <= d0 + n && s == s0 + (d - d0)
      invariant mem[..] == Copied(old(mem[..]), d0, s0, d - d0)
    {
      CopiedUp(old(mem[..]), d0, s0, d - d0, 1);
      CopyByte(mem, d, s);
      d, s := d + 1, s + 1;
    }
  }

  /** Lines 321-322: words upwards. */
  method CopyWordsUp<T>(mem: array<T>, d0: nat, s0: nat, n: nat)
    requires d0 + n <= mem.Length && s0 + n <= mem.Length && n % 4 == 0
    requires d0 <= s0 || s0 + n <= d0
    modifies mem
    ensures mem[..] == Copied(old(mem[..]), d0, s0, n)
  {
    hide Copied;
    var d, s := d0, s0;
    CopiedNothing(mem[..], d0, s0);
    while d < d0 + n
      invariant d0 <= d <= d0 + n && s == s0 + (d - d0) && (d0 + n - d) % 4 == 0
      invariant mem[..] == Copied(old(mem[..]), d0, s0, d - d0)
    {
      CopiedUp(old(mem[..]), d0, s0, d - d0, 4);
      CopyWord(mem, d, s);
      d, s := d + 4, s + 4;
    }
  }

  /** The regions must not overlap with the destination above the source: memmove relies on
      the forward order, and everyone else keeps the regions apart. */
  method Memcpy<T>(mem: array<T>, dest: nat, src: nat, len: nat) returns (r: nat)
    requires mem.Length < SPACE
    requires dest + len <= mem.Length && src + len <= mem.Length
    requires dest <= src || src + len <= dest
    modifies mem
    ensures r == dest
    ensures mem[..] == Copied(old(mem[..]), dest, src, len)
  {
    hide Copied;
    ghost var before := mem[..];
    var tail := dest + len;
    var body := WordDown(tail);
    var head := ForwardHead(dest, tail, dest % 4 == src % 4);
    var h := if dest < head then head - dest else 0;
    CopyBytesUp(mem, dest, src, h);
    var w := if dest + h < body then body - (dest + h) else 0;
    CopyWordsUp(mem, dest + h, src + h, w);
    CopiedUp(before, dest, src, h, w);
    CopyBytesUp(mem, dest + h + w, src + h + w, len - h - w);
    CopiedUp(before, dest, src, h + w, len - h - w);
    return dest;
  }

  lemma FilledUp<T>(mem: seq<T>, dest: nat, value: T, a: nat, b: nat)
    requires dest + a + b <= |mem|
    ensures Filled(Filled(mem, dest, value, a), dest + a, value, b) == Filled(mem, dest, value, a + b)
  {}

  lemma FilledNothing<T>(mem: seq<T>, dest: nat, value: T)
    requires dest <= |mem|
    ensures Filled(mem, dest, value, 0) == mem
  {}

  method FillBytes<T>(mem: array<T>, d0: nat, value: T, n: nat)
    requires d0 + n <= mem.Length
    modifies mem
    ensures mem[..] == Filled(old(mem[..]), d0, value, n)
  {
    hide Filled;
    var d := d0;
    FilledNothing(mem[..], d0, value);
    while d < d0 + n
      invariant d0 <= d <= d0 + n
      invariant mem[..] == Filled(old(mem[..]), d0, value, d - d0)
    {
      FilledUp(old(mem[..]), d0, value, d - d0, 1);
      FillByte(mem, d, value);
      d := d + 1;
    }
  }

  method FillByte<T>(mem: array<T>, d: nat, value: T)
    requires d < mem.Length
    modifies mem
    ensures mem[..] == Filled(old(mem[..]), d, value, 1)
  {
    mem[d] := value;
  }

  /** One store of the word that holds the value four times. */
  method FillWord<T>(mem: array<T>, d: nat, value: T)
    requires d + 4 <= mem.Length
    modifies mem
    ensures mem[..] == Filled(old(mem[..]), d, value, 4)
  {
    ghost var before := mem[..];
    mem[d], mem[d + 1], mem[d + 2], mem[d + 3] := value, value, value, value;
    assert mem[..][..d] == before[..d] && mem[..][d + 4..] == before[d + 4..];
    assert mem[..][d..d + 4] == seq(4, _ => value);
    assert mem[..] == mem[..][..d] + mem[..][d..d + 4] + mem[..][d + 4..];
  }

  method FillWords<T>(mem: array<T>, d0: nat, value: T, n: nat)
    requires d0 + n <= mem.Length && n % 4 == 0
    modifies mem
    ensures mem[..] == Filled(old(mem[..]), d0, value, n)
  {
    hide Filled;
    var d := d0;
    FilledNothing(mem[..], d0, value);
    while d < d0 + n
      invariant d0 <= d <= d0 + n && (d0 + n - d) % 4 == 0
      invariant mem[..] == Filled(old(mem[..]), d0, value, d - d0)
    {
      FilledUp(old(mem[..]), d0, value, d - d0, 4);
      FillWord(mem, d, value);
      d := d + 4;
    }
  }

  method Memset(mem: array<bv8>, dest: nat, c: int, len: nat) returns (r: nat)
    requires mem.Length < SPACE && dest + len <= mem.Length
    modifies mem
    ensures r == dest
    ensures mem[..] == Filled(old(mem[..]), dest, (c % 256) as bv8, len)
  {
    hide Filled;
    ghost var before := mem[..];
    var value := (c % 256) as bv8;
    var tail := dest + len;
    var body := WordDown(tail);
    var head := ForwardHead(dest, tail, true);
    var h := if dest < head then head - dest else 0;
    FillBytes(mem, dest, value, h);
    var w := if dest + h < body then body - (dest + h) else 0;
    FillWords(mem, dest + h, value, w);
    FilledUp(before, dest, value, h, w);
    FillBytes(mem, dest + h + w, value, len - h - w);
    FilledUp(before, dest, value, h + w, len - h - w);
    return dest;
  }

  /** Where the byte-wise head of a backward copy stops (lines 393-404). */
  function BackwardHead(start: nat, end: nat, aligned: bool): (head: nat)
    requires start <= end && start <= SPACE - 4
    ensures start <= head <= end
    ensures head == start || (aligned && head % 4 == 0 && WordUp(start) <= head)
  {
    if !aligned || start > WordDown(end) then start else WordDown(end)
  }

  /** A backward copy in two pieces, the upper one first. */
  lemma CopiedDown<T>(mem: seq<T>, dest: nat, src: nat, a: nat, b: nat)
    requires dest + a + b <= |mem| && src + a + b <= |mem| && src <= dest
    ensures Copied(Copied(mem, dest + a, src + a, b), dest, src, a) == Copied(mem, dest, src, a + b)
  {
    hide Copied;
    var m := Copied(mem, dest + a, src + a, b);
    var n := Copied(m, dest, src, a);
    var len := a + b;
    forall k | 0 <= k < |mem| ensures n[k] == if dest <= k < dest + len then mem[src + (k - dest)] else mem[k] {
      CopiedAt(m, dest, src, a, k);
      CopiedAt(mem, dest + a, src + a, b, k);
      if dest <= k < dest + a {
        CopiedAt(mem, dest + a, src + a, b, src + (k - dest));
      }
    }
    CopiedPointwise(mem, n, dest, src, len);
  }

  /** Lines 407-408 and 419-420: n bytes downwards, ending at d0 and s0. */
  method CopyBytesDown<T>(mem: array<T>, d0: nat, s0: nat, n: nat)
    requires d0 + n <= mem.Length && s0 + n <= mem.Length && s0 <= d0
    modifies mem
    ensures mem[..] == Copied(old(mem[..]), d0, s0, n)
  {
    hide Copied;
    var d, s := d0 + n, s0 + n;
    CopiedNothing(mem[..], d, s);
    while d > d0
      invariant d0 <= d <= d0 + n && s == s0 + (d - d0)
      invariant mem[..] == Copied(old(mem[..]), d, s, d0 + n - d)
    {
      d, s := d - 1, s - 1;
      CopiedDown(old(mem[..]), d, s, 1, d0 + n - d - 1);
      CopyByte(mem, d, s);
    }
  }

  /** Lines 413-414: words downwards. */
  method CopyWordsDown<T>(mem: array<T>, d0: nat, s0: nat, n: nat)
    requires d0 + n <= mem.Length && s0 + n <= mem.Length && s0 <= d0 && n % 4 == 0
    modifies mem
    ensures mem[..] == Copied(old(mem[..]), d0, s0, n)
  {
    hide Copied;
    var d, s := d0 + n, s0 + n;
    CopiedNothing(mem[..], d, s);
    while d > d0
      invariant d0 <= d <= d0 + n && s == s0 + (d - d0) && (d - d0) % 4 == 0
      invariant mem[..] == Copied(old(mem[..]), d, s, d0 + n - d)
    {
      d, s := d - 4, s - 4;
      CopiedDown(old(mem[..]), d, s, 4, d0 + n - d - 4);
      CopyWord(mem, d, s);
    }
  }

  lemma BackwardParts(dest: nat, len: nat, aligned: bool)
    requires dest <= SPACE - 4
    ensures var head := BackwardHead(dest, dest + len, aligned);
      var w := if head > WordUp(dest) then head - WordUp(dest) else 0;
      dest <= head <= dest + len && w <= head - dest && w % 4 == 0
  {}

  /** Lines 383-422: head, body and tail from the top down. */
  method CopyBackward<T>(mem: array<T>, dest: nat, src: nat, len: nat)
    requires dest + len <= mem.Length && src + len <= mem.Length && src <= dest <= SPACE - 4
    modifies mem
    ensures mem[..] == Copied(old(mem[..]), dest, src, len)
  {
    hide Copied, WordUp, WordDown, BackwardHead;
    BackwardParts(dest, len, dest % 4 == src % 4);
    ghost var before := mem[..];
    var body := WordUp(dest);
    var head := BackwardHead(dest, dest + len, dest % 4 == src % 4);
    var h := dest + len - head;
    var w := if head > body then head - body else 0;
    var t := len - h - w;
    CopyBytesDown(mem, dest + t + w, src + t + w, h);
    CopyWordsDown(mem, dest + t, src + t, w);
    CopiedDown(before, dest + t, src + t, w, h);
    CopyBytesDown(mem, dest, src, t);
    CopiedDown(before, dest, src, t, w + h);
  }

  /** Lines 376-377 fail: the destination starts inside the source, so the copy runs from the top down. */
  predicate Backward(dest: nat, src: nat, len: nat) {
    src < dest < src + len
  }

  /** The one overlap for which the end of the word loop wraps to address zero. */
  predicate RunsAway(dest: nat, src: nat, len: nat) {
    dest == SPACE - 3 && src == SPACE - 4 && len == 2
  }

  lemma RunsAwayIff(dest: nat, src: nat, len: nat)
    requires dest + len < SPACE && src + len < SPACE
    ensures Backward(dest, src, len) && WordUp(dest) < dest <==> RunsAway(dest, src, len)
  {}

  /** The word pointer after k assignments of the loop at lines 413-414, in 32-bit arithmetic. */
  function WordPointer(d: nat, k: nat): (p: nat)
    requires d < SPACE
    ensures p < SPACE
  {
    if k == 0 then d else (WordPointer(d, k - 1) - 4) % SPACE
  }

  /** There the byte loop has moved everything, and then the word loop never reaches its end. */
  lemma {:induction false} RunawayNeverEnds(dest: nat, src: nat, len: nat, k: nat)
    requires RunsAway(dest, src, len)
    ensures WordPointer(dest, k) > WordUp(dest)
    ensures WordPointer(dest, k) % 4 == 1
  {
    if k > 0 {
      RunawayNeverEnds(dest, src, len, k - 1);
      var p := WordPointer(dest, k - 1);
      assert (p - 4) % SPACE == if p < 4 then p - 4 + SPACE else p - 4;
    }
  }

  /** Correct for every other overlap, length and alignment. */
  method Memmove<T>(mem: array<T>, dest: nat, src: nat, len: nat) returns (r: nat)
    requires mem.Length < SPACE
    requires dest + len <= mem.Length && src + len <= mem.Length
    requires !RunsAway(dest, src, len)
    modifies mem
    ensures r == dest
    ensures mem[..] == Copied(old(mem[..]), dest, src, len)
  {
    RunsAwayIff(dest, src, len);
    if dest <= src || dest >= src + len {
      r := Memcpy(mem, dest, src, len);
    } else {
      CopyBackward(mem, dest, src, len);
      r := dest;
    }
  }
}
