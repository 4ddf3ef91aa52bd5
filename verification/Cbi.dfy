/** The cached board-info image and its EEPROM (common/cbi.c, common/cbi_eeprom.c): the byte
    buffer against the list of entries, and the way to the EEPROM and back. */
module Cbi {
  import opened Octets
  import opened CbiStore
  import Crc8
  import Gf2
  import Memory

  const PAGE: nat := 8
  const MAGIC: seq<Byte> := [0x43, 0x42, 0x49]

  /** CBI_VERSION_MAJOR and CBI_VERSION_MINOR. */
  const VERSION: Byte := 0

  // ----- The image as bytes -----

  /** total_size, a little-endian 16-bit field at offset 6. */
  function TotalSize(bytes: seq<Byte>): nat
    requires |bytes| >= HEADER
  {
    bytes[6] as int + 256 * (bytes[7] as int)
  }

  /** The image holds exactly these entries, back to back, behind the header. */
  ghost predicate Holds(bytes: seq<Byte>, es: seq<Entry>) {
    && HEADER <= |bytes| < 0x1_0000
    && WellFormed(es)
    && TotalSize(bytes) == HEADER + |Serialize(es)| <= |bytes|
    && bytes[HEADER..TotalSize(bytes)] == Serialize(es)
  }

  function ToBits(bytes: seq<Byte>): seq<bv8> {
    seq(|bytes|, i requires 0 <= i < |bytes| => bytes[i] as bv8)
  }

  /** cbi_crc8 (lines 28-32): everything behind the CRC byte. */
  function Crc(bytes: seq<Byte>): Byte
    requires |bytes| >= HEADER && HEADER <= TotalSize(bytes) <= |bytes|
  {
    Crc8.Hash(0, ToBits(bytes[4..TotalSize(bytes)])) as int
  }

  predicate HeaderOk(bytes: seq<Byte>) {
    && |bytes| >= HEADER
    && bytes[..3] == MAGIC
    && bytes[5] <= VERSION
    && HEADER <= TotalSize(bytes) <= |bytes|
  }

  predicate ImageOk(bytes: seq<Byte>) {
    HeaderOk(bytes) && Crc(bytes) == bytes[3]
  }

  /** What an image must look like, byte by byte: the magic "CBI", any minor and no major version,
      a size of at least the header that fits, and in byte 3 the remainder, by x^8 + x^2 + x + 1, of
      all bytes from byte 4 up to the size, times x^8. */
  ghost predicate Acceptable(bytes: seq<Byte>) {
    && |bytes| >= 8 && bytes[0] == 0x43 && bytes[1] == 0x42 && bytes[2] == 0x49 && bytes[5] == 0
    && var total := bytes[6] as int + 256 * (bytes[7] as int);
       && 8 <= total <= |bytes|
       && Crc8.View(bytes[3] as bv8)
          == Gf2.Rem(Gf2.Zeros(8),
                     Crc8.MessageBits(seq(total - 4, i requires 0 <= i < total - 4 => bytes[4 + i] as bv8))
                     + Gf2.Zeros(8),
                     [false, false, false, false, false, true, true, true])
  }

  /** The checks of the code accept exactly these. */
  lemma ImageOkIff(bytes: seq<Byte>)
    ensures ImageOk(bytes) <==> Acceptable(bytes)
  {
    hide Crc8.Hash, Crc8.View, Crc8.MessageBits, Gf2.Rem;
    if |bytes| >= 8 {
      MagicIs(bytes);
      var total := bytes[6] as int + 256 * (bytes[7] as int);
      if 8 <= total <= |bytes| {
        var data := ToBits(bytes[4..total]);
        assert data == seq(total - 4, i requires 0 <= i < total - 4 => bytes[4 + i] as bv8);
        SignatureIff(data, bytes[3]);
      }
    }
  }

  lemma SignatureIff(data: seq<bv8>, b: Byte)
    ensures Crc8.Hash(0, data) as int == b <==>
      Crc8.View(b as bv8) ==
        Gf2.Rem(Gf2.Zeros(8), Crc8.MessageBits(data) + Gf2.Zeros(8),
                [false, false, false, false, false, true, true, true])
  {
    hide Crc8.Hash, Crc8.View, Crc8.MessageBits, Gf2.Rem;
    Crc8.HashIsRemainder(data);
    ByteToBits(b);
    BitsToByte(Crc8.Hash(0, data));
    if Crc8.View(b as bv8) == Crc8.View(Crc8.Hash(0, data)) {
      Crc8.ViewInjective(b as bv8, Crc8.Hash(0, data));
    }
  }

  lemma MagicIs(bytes: seq<Byte>)
    requires |bytes| >= 8
    ensures bytes[..3] == MAGIC <==> bytes[0] == 0x43 && bytes[1] == 0x42 && bytes[2] == 0x49
  {
    if bytes[..3] == MAGIC {
      assert bytes[..3][0] == 0x43 && bytes[..3][1] == 0x42 && bytes[..3][2] == 0x49;
    }
  }

  /** Of an accepted image no single byte can be changed that is not its magic, CRC or size without
      the image being refused. */
  lemma ByteChangeRefused(bytes: seq<Byte>, i: nat, b: Byte)
    requires ImageOk(bytes) && 4 <= i < bytes[6] as int + 256 * (bytes[7] as int) && i != 6 && i != 7
    requires b != bytes[i]
    ensures !ImageOk(bytes[i := b])
  {
    hide Crc8.Hash;
    var total := TotalSize(bytes);
    var data := ToBits(bytes[4..total]);
    var changed := bytes[i := b];
    ByteToBits(b);
    ByteToBits(bytes[i]);
    Crc8.OneByteChangesCheck(0, data, i - 4, b as bv8);
    assert ToBits(changed[4..total]) == data[i - 4 := b as bv8];
    BitsToByte(Crc8.Hash(0, data));
    BitsToByte(Crc8.Hash(0, data[i - 4 := b as bv8]));
  }

  function Offset(es: seq<Entry>, k: nat): (p: nat)
    requires k <= |es| && forall i | 0 <= i < |es| :: IsEntry(es[i])
  {
    HEADER + |Serialize(es[..k])|
  }

  lemma SliceOfSlice<T>(s: seq<T>, lo: nat, hi: nat, i: nat, j: nat)
    requires lo <= hi <= |s| && i <= j <= hi - lo
    ensures s[lo..hi][i..j] == s[lo + i..lo + j]
  {
    var a, b := s[lo..hi][i..j], s[lo + i..lo + j];
    forall k | 0 <= k < |a| ensures a[k] == b[k] {
      assert s[lo..hi][i + k] == s[lo + (i + k)];
    }
  }

  /** What lies at the place of entry k. */
  lemma EntryAt(bytes: seq<Byte>, es: seq<Entry>, k: nat)
    requires Holds(bytes, es) && k < |es|
    ensures var p, n := Offset(es, k), |es[k].value|;
      && p + 2 + n == Offset(es, k + 1) <= TotalSize(bytes) <= |bytes|
      && bytes[p] == es[k].tag && bytes[p + 1] == n && bytes[p + 2..p + 2 + n] == es[k].value
  {
    hide Serialize, TotalSize;
    SerializeAround(es, k);
    var a, b, c := Serialize(es[..k]), Bytes(es[k]), Serialize(es[k + 1..]);
    var body := bytes[HEADER..TotalSize(bytes)];
    assert body == a + b + c;
    assert body[|a|..|a| + |b|] == b by {
      assert (a + b)[|a|..] == b;
    }
    SliceOfSlice(bytes, HEADER, TotalSize(bytes), |a|, |a| + |b|);
    assert es[..k + 1] == es[..k] + [es[k]];
    SerializeConcat(es[..k], [es[k]]);
    SerializeOne(es[k]);
    assert bytes[HEADER + |a|] == b[0] && bytes[HEADER + |a| + 1] == b[1];
    assert b[2..] == es[k].value;
  }

  lemma OffsetEnds(bytes: seq<Byte>, es: seq<Entry>)
    requires Holds(bytes, es)
    ensures Offset(es, 0) == HEADER && Offset(es, |es|) == TotalSize(bytes)
  {
    assert es[..|es|] == es;
  }

  lemma SplitSize(n: nat)
    requires n < 0x1_0000
    ensures n % 256 + 256 * (n / 256) == n && 0 <= n / 256 < 256
  {}

  datatype Response = Ok | Denied | InvalidParam | Failed

  class BoardInfo {
    const image: array<Byte>
    const unlocked: bool

    /** Enums are as wide as an int, or only as wide as they need. */
    const wideEnums: bool
    var synced: bool
    var eeprom: seq<Byte>
    var writeProtected: bool

    /** The entries the cached image holds, and those the EEPROM holds. */
    ghost var entries: seq<Entry>
    ghost var stored: seq<Entry>

    /** At boot: a zeroed buffer, nothing cached, and whatever the EEPROM holds. */
    constructor (size: nat, locked: bool, wide: bool, protected: bool, contents: seq<Byte>, ghost es: seq<Entry>)
      requires HEADER <= size < 0x1_0000 && |contents| == size
      requires ImageOk(contents) ==> Holds(contents, es)
      ensures Consistent() && !synced && fresh(image) && image.Length == size && !ImageOk(image[..])
      ensures eeprom == contents && stored == es && unlocked == !locked && wideEnums == wide
      ensures writeProtected == protected
    {
      image := new Byte[size](_ => 0);
      unlocked, wideEnums, writeProtected, synced, eeprom := !locked, wide, protected, false, contents;
      entries, stored := [], es;
      new;
      assert image[..3][0] == 0;
    }

    ghost predicate Valid()
      reads this, image
    {
      Holds(image[..], entries)
    }

    /** cbi_find_tag (lines 61-73): the offset of the entry, or -1. */
    method FindTag(tag: nat) returns (p: int)
      requires Valid()
      ensures p == -1 <==> IndexOf(entries, tag) == |entries|
      ensures p != -1 ==> p == Offset(entries, IndexOf(entries, tag))
    {
      hide Serialize, TotalSize;
      ghost var k := 0;
      OffsetEnds(image[..], entries);
      p := HEADER;
      var total := TotalSize(image[..]);
      while p + 2 < total
        invariant k <= |entries| && p == Offset(entries, k)
        invariant Offset(entries, |entries|) == total
        invariant forall i | 0 <= i < k :: entries[i].tag != tag
        decreases total - p
      {
        EntryAt(image[..], entries, k);
        if image[p] == tag {
          FirstIs(entries, k, tag);
          return;
        }
        p := p + 2 + image[p + 1];
        k := k + 1;
      }
      if k < |entries| {
        EntryAt(image[..], entries, k);
      }
      assert k == |entries|;
      NotFound(entries, tag);
      return -1;
    }

    method SetTotalSize(n: nat)
      requires image.Length >= HEADER && n < 0x1_0000
      modifies image
      ensures TotalSize(image[..]) == n
      ensures forall i | 0 <= i < image.Length && i != 6 && i != 7 :: image[i] == old(image[i])
    {
      SplitSize(n);
      image[6] := n % 256;
      image[7] := n / 256;
    }

    /** cbi_remove_tag (lines 211-220), on entry k at offset p. */
    method RemoveTag(p: nat, ghost k: nat)
      requires Valid() && k < |entries| && p == Offset(entries, k)
      modifies image, this`entries
      ensures Valid() && entries == Without(old(entries), k)
      ensures image[..6] == old(image[..6])
    {
      hide Serialize, TotalSize, Memory.Copied;
      ghost var before, es := image[..], entries;
      EntryAt(before, es, k);
      var total := TotalSize(image[..]);
      var size := 2 + image[p + 1] as int;
      var next := p + size;
      var bytesAfter := total - next;
      var r := Memory.Memmove(image, p, next, bytesAfter);
      SetTotalSize(total - size);
      entries := Without(entries, k);
      RemovedImage(before, image[..], es, k);
      HeaderKept(before, image[..], p, next, bytesAfter);
    }

    /** cbi_set_data at the end of the list (lines 34-51 and 251-253). */
    method Append(tag: nat, value: seq<Byte>)
      requires Valid() && |value| < 256
      requires TotalSize(image[..]) + 2 + |value| <= image.Length
      modifies image, this`entries
      ensures Valid()
      ensures entries == if value == [] then old(entries) else old(entries) + [Entry(tag % 256, value)]
      ensures image[..6] == old(image[..6])
    {
      ghost var before, es := image[..], entries;
      var p := TotalSize(image[..]);
      if |value| == 0 {
        SetTotalSize(p);
        SameTotalSize(before, image[..]);
        return;
      }
      hide Serialize, TotalSize;
      image[p] := tag % 256;
      image[p + 1] := |value|;
      for i := 0 to |value|
        modifies image
        invariant forall j | 0 <= j < image.Length && !(p <= j < p + 2 + i) :: image[j] == before[j]
        invariant image[p] == tag % 256 && image[p + 1] == |value|
        invariant forall j | 0 <= j < i :: image[p + 2 + j] == value[j]
      {
        image[p + 2 + i] := value[i];
      }
      SetTotalSize(p + 2 + |value|);
      AppendedImage(before, image[..], es, Entry(tag % 256, value));
      entries := es + [Entry(tag % 256, value)];
    }

    /** cbi_set_board_info (lines 222-260), called with a size that is cut to eight bits. */
    method SetBoardInfo(tag: nat, data: seq<Byte>) returns (status: Status)
      requires Valid()
      modifies image, this`entries
      ensures Valid()
      ensures (status, entries) == SetStep(old(entries), tag, data, image.Length, unlocked)
      ensures image[..6] == old(image[..6])
      ensures status != Success && entries == old(entries) ==> image[..] == old(image[..])
    {
      hide Serialize, TotalSize, Cut;
      ghost var es, k := entries, IndexOf(entries, tag);
      var value := Cut(data);
      var p := FindTag(tag);
      if !unlocked && p != -1 && (tag == TAG_BOARD_VERSION || tag == TAG_OEM_ID) {
        return AccessDenied;
      }
      if p != -1 {
        EntryAt(image[..], entries, k);
        if image[p + 1] as int == |value| {
          Overwrite(p, k, value);
          return Success;
        }
        WithoutWellFormed(es, k);
        RemoveTag(p, k);
      }
      if image.Length < TotalSize(image[..]) + 2 + |value| {
        return Overflow;
      }
      Append(tag, value);
      return Success;
    }

    /** Line 256: the new value has the size of the old one. */
    method Overwrite(p: nat, ghost k: nat, value: seq<Byte>)
      requires Valid() && k < |entries| && p == Offset(entries, k) && |value| == |entries[k].value|
      modifies image, this`entries
      ensures Valid() && entries == old(entries)[k := Entry(old(entries)[k].tag, value)]
      ensures image[..6] == old(image[..6])
    {
      hide Serialize, TotalSize;
      ghost var before, es := image[..], entries;
      EntryAt(before, es, k);
      for i := 0 to |value|
        modifies image
        invariant forall j | 0 <= j < image.Length && !(p + 2 <= j < p + 2 + i) :: image[j] == before[j]
        invariant forall j | 0 <= j < i :: image[p + 2 + j] == value[j]
      {
        image[p + 2 + i] := value[i];
      }
      entries := es[k := Entry(es[k].tag, value)];
      OverwrittenImage(before, image[..], es, k, value);
    }

    // ----- To the EEPROM and back -----

    /** Between calls: a synced cache holds its entries, and an EEPROM image that passes the
        checks holds the stored ones. */
    ghost predicate Consistent()
      reads this, image
    {
      && HEADER <= image.Length < 0x1_0000 && |eeprom| == image.Length
      && (synced ==> Valid() && image[..3] == MAGIC)
      && (ImageOk(eeprom) ==> Holds(eeprom, stored))
    }

    /** eeprom_read (common/cbi_eeprom.c:25-29). A failed read leaves anything in the range. */
    method Load(offset: nat, n: nat, fails: bool)
      requires offset + n <= image.Length == |eeprom|
      modifies image
      ensures forall i | 0 <= i < image.Length && !(offset <= i < offset + n) :: image[i] == old(image[i])
      ensures !fails ==> forall i | offset <= i < offset + n :: image[i] == eeprom[i]
    {
      for i := 0 to n
        invariant forall j | 0 <= j < image.Length && !(offset <= j < offset + i) :: image[j] == old(image[j])
        invariant !fails ==> forall j | offset <= j < offset + i :: image[j] == eeprom[j]
      {
        if fails {
          image[offset + i] := *;
        } else {
          image[offset + i] := eeprom[offset + i];
        }
      }
    }

    /** do_cbi_read (lines 110-157). */
    method DoCbiRead(headerFails: bool, bodyFails: bool) returns (ok: bool)
      requires HEADER <= image.Length < 0x1_0000 && |eeprom| == image.Length
      modifies image
      ensures ok <==> !headerFails && !bodyFails && ImageOk(eeprom)
      ensures ok <==> !headerFails && !bodyFails && Acceptable(eeprom)
      ensures ok ==> image[..TotalSize(eeprom)] == eeprom[..TotalSize(eeprom)]
    {
      hide Crc8.Hash, Acceptable;
      ImageOkIff(eeprom);
      Load(0, HEADER, headerFails);
      if headerFails {
        return false;
      }
      assert image[..3] == eeprom[..3];
      if !HeaderOk(image[..]) {
        return false;
      }
      var total := TotalSize(image[..]);
      Load(HEADER, total - HEADER, bodyFails);
      if bodyFails {
        return false;
      }
      SamePrefix(image[..], eeprom, total);
      ok := Crc(image[..]) == image[3];
    }

    /** cbi_read (lines 159-176): a synced cache is enough, else two attempts. */
    method CbiRead(fails: seq<(bool, bool)>) returns (ok: bool)
      requires Consistent() && |fails| == 2
      modifies image, this`synced, this`entries
      ensures Consistent()
      ensures ok <==> old(synced) || (ImageOk(eeprom) && ((false, false) in fails))
      ensures synced == ok
      ensures ok ==> entries == if old(synced) then old(entries) else stored
      ensures old(synced) ==> image[..] == old(image[..])
      ensures ok && !old(synced) ==> ImageOk(image[..])
    {
      hide Holds, ImageOk, TotalSize;
      if synced {
        return true;
      }
      for i := 0 to 2
        invariant !synced && Consistent()
        invariant ImageOk(eeprom) ==> (false, false) !in fails[..i]
      {
        ok := DoCbiRead(fails[i].0, fails[i].1);
        if ok {
          HoldsPrefix(image[..], eeprom, stored);
          SignedPrefix(image[..], eeprom);
          entries := stored;
          synced := true;
          assert fails[i] == (false, false);
          return true;
        }
      }
      return false;
    }

    method InvalidateCache()
      modifies this`synced
      ensures !synced
    {
      synced := false;
    }

    /** cbi_get_board_info (lines 185-209). */
    method GetBoardInfo(tag: nat, buf: array<Byte>, size: Byte, fails: seq<(bool, bool)>)
      returns (status: Status, newSize: Byte)
      requires Consistent() && |fails| == 2 && buf != image && size <= buf.Length
      modifies image, this`synced, this`entries, buf
      ensures Consistent()
      ensures synced <==> old(synced) || (ImageOk(eeprom) && ((false, false) in fails))
      ensures synced ==> entries == if old(synced) then old(entries) else stored
      ensures status == if !synced || tag !in ToMap(entries) then Unknown
                        else if size < |ToMap(entries)[tag]| then Inval
                        else Success
      ensures status == Success ==>
        var value := ToMap(entries)[tag];
        newSize == |value| <= size
        && buf[..] == value + seq(size - |value|, _ => 0 as Byte) + old(buf[size..])
      ensures status != Success ==> buf[..] == old(buf[..]) && newSize == size
    {
      hide Holds, ImageOk, TotalSize, Serialize, IndexOf, ToMap;
      var ok := CbiRead(fails);
      if !ok {
        return Unknown, size;
      }
      ToMapLookup(entries, tag);
      var p := FindTag(tag);
      if p == -1 {
        return Unknown, size;
      }
      ghost var value := ToMap(entries)[tag];
      EntryAt(image[..], entries, IndexOf(entries, tag));
      var n := image[p + 1];
      if size < n {
        return Inval, size;
      }
      assert image[p + 2..p + 2 + n] == value;
      CopyValue(buf, size, p + 2, n);
      return Success, n;
    }

    /** Clear the buffer, then copy the value (lines 201-205). */
    method CopyValue(buf: array<Byte>, size: Byte, p: nat, n: Byte)
      requires buf != image && n <= size <= buf.Length && p + n <= image.Length
      modifies buf
      ensures buf[..] == image[p..p + n] + seq(size - n, _ => 0 as Byte) + old(buf[size..])
    {
      for i := 0 to size
        invariant forall j | 0 <= j < i :: buf[j] == 0
        invariant forall j | i <= j < buf.Length :: buf[j] == old(buf[j])
      {
        buf[i] := 0;
      }
      for i := 0 to n
        invariant forall j | 0 <= j < i :: buf[j] == image[p + j]
        invariant forall j | i <= j < size :: buf[j] == 0
        invariant forall j | size as int <= j < buf.Length :: buf[j] == old(buf[j])
      {
        buf[i] := image[p + i];
      }
    }

    /** eeprom_write (common/cbi_eeprom.c:42-64), page by page; the bus fails at page `failAt`. */
    method EepromWrite(failAt: nat) returns (ok: bool)
      requires HEADER <= image.Length == |eeprom| && TotalSize(image[..]) <= image.Length
      modifies this`eeprom
      ensures ok <==> TotalSize(image[..]) <= 8 * failAt
      ensures var n := if ok then TotalSize(image[..]) else 8 * failAt;
        eeprom == image[..n] + old(eeprom)[n..]
    {
      hide TotalSize;
      ghost var img := image[..];
      var p, rest, page := 0, TotalSize(image[..]), 0;
      while rest > 0
        invariant image[..] == img && 0 <= p && 0 <= rest && p + rest == TotalSize(img)
        invariant if rest > 0 then p == PAGE * page else p <= PAGE * page
        invariant 0 < rest ==> page <= failAt
        invariant rest == 0 ==> p <= PAGE * failAt
        invariant eeprom == img[..p] + old(eeprom)[p..]
        decreases rest
      {
        var size := if PAGE < rest then PAGE else rest;
        if page == failAt {
          return false;
        }
        PageWritten(eeprom, old(eeprom), img, p, size);
        eeprom := eeprom[..p] + image[p..p + size] + eeprom[p + size..];
        p, rest, page := p + size, rest - size, page + 1;
      }
      return true;
    }

    /** Lines 346-348: an empty image. */
    method Initialise()
      requires HEADER <= image.Length < 0x1_0000
      modifies image, this`entries
      ensures Valid() && entries == [] && image[..3] == MAGIC
      ensures image[..] == [0x43, 0x42, 0x49, 0, 0, 0, 8, 0] + seq(image.Length - 8, _ => 0 as Byte)
    {
      for i := 0 to image.Length
        invariant forall j | 0 <= j < i :: image[j] == 0
      {
        image[i] := 0;
      }
      image[0], image[1], image[2] := MAGIC[0], MAGIC[1], MAGIC[2];
      SetTotalSize(HEADER);
      entries := [];
    }

    /** Lines 361-364: take over the format, sign the image. */
    method Seal()
      requires Valid() && image[..3] == MAGIC
      modifies image, this`synced
      ensures Valid() && synced && ImageOk(image[..]) && image[..3] == MAGIC
    {
      ghost var before := image[..];
      image[4], image[5] := VERSION, VERSION;
      HoldsBody(image[..], before, entries);
      assert image[..3] == before[..3];
      ghost var unsigned := image[..];
      var crc := Crc8.CrosCrc8(ToBits(image[4..TotalSize(image[..])]));
      image[3] := crc as int;
      HoldsBody(image[..], unsigned, entries);
      CrcIgnoresSignature(image[..], unsigned);
      assert image[..3] == unsigned[..3];
      synced := true;
    }

    /** cbi_write (lines 262-270) past the protection check; a failure tears the image at a page. */
    method Store(failAt: nat) returns (ok: bool)
      requires Consistent() && synced && ImageOk(image[..])
      modifies this`eeprom, this`stored
      ensures ok <==> TotalSize(image[..]) <= PAGE * failAt
      ensures ok ==> Consistent() && ImageOk(eeprom) && stored == entries
      ensures !ok ==> eeprom == image[..PAGE * failAt] + old(eeprom)[PAGE * failAt..]
    {
      hide Serialize, Crc8.Hash;
      ok := EepromWrite(failAt);
      if ok {
        ghost var total := TotalSize(image[..]);
        stored := entries;
        SamePrefix(eeprom, image[..], total);
        HoldsPrefix(eeprom, image[..], entries);
      }
    }

    /** Where the set starts from (lines 339-352). */
    method Prepare(init: bool, fails: seq<(bool, bool)>) returns (ok: bool)
      requires Consistent() && |fails| == 2
      modifies image, this`synced, this`entries
      ensures Consistent()
      ensures ok <==> init || old(synced) || (ImageOk(eeprom) && ((false, false) in fails))
      ensures ok ==> Valid() && image[..3] == MAGIC
      ensures ok ==> entries == if init then [] else if old(synced) then old(entries) else stored
      ensures synced == if init then old(synced) else ok
      ensures ok && !init ==> if old(synced) then image[..] == old(image[..]) else ImageOk(image[..])
    {
      hide Holds, ImageOk, Valid;
      if init {
        Initialise();
        return true;
      }
      ok := CbiRead(fails);
    }

    /** common_cbi_set (lines 327-375). */
    method CommonSet(tag: nat, data: seq<Byte>, init: bool, noSync: bool, fails: seq<(bool, bool)>, failAt: nat)
      returns (r: Response)
      requires Consistent() && |fails| == 2
      modifies image, this`synced, this`entries, this`eeprom, this`stored
      ensures r == Denied <==>
        (writeProtected && !noSync) || (init && !unlocked && old(ImageOk(image[..])))
      ensures r == Denied ==> image[..] == old(image[..]) && synced == old(synced) && entries == old(entries)
      ensures r in {Denied, InvalidParam} || noSync ==> eeprom == old(eeprom) && stored == old(stored)
      ensures var readable := init || old(synced) || (old(ImageOk(eeprom)) && ((false, false) in fails));
        var start := if init then [] else if old(synced) then old(entries) else old(stored);
        r != Denied ==> Outcome(r, readable, start, tag, data, noSync, failAt)
      ensures r != Failed || !synced ==> Consistent()
      ensures r == Ok ==> Acceptable(image[..]) && (!noSync ==> Acceptable(eeprom))
      ensures r == InvalidParam && !init ==> synced
      ensures r == Failed && synced ==> eeprom == image[..PAGE * failAt] + old(eeprom)[PAGE * failAt..]
      ensures r == Failed && !synced ==> eeprom == old(eeprom) && stored == old(stored)
      ensures
        (r == InvalidParam && !init && (old(synced) ==> old(ImageOk(image[..])))
         && entries == (if old(synced) then old(entries) else old(stored))) ==> ImageOk(image[..])
    {
      hide Holds, ImageOk, TotalSize, SetStep, Acceptable;
      if writeProtected && !noSync {
        return Denied;
      }
      if init && !unlocked && ImageOk(image[..]) {
        return Denied;
      }
      var ok := Prepare(init, fails);
      if !ok {
        return Failed;
      }
      HoldsList(image[..], entries);
      var status := SetBoardInfo(EnumTag(tag, wideEnums), data);
      assert image[..3] == image[..6][..3] == MAGIC;
      if status != Success {
        return InvalidParam;
      }
      Seal();
      ImageOkIff(image[..]);
      if noSync {
        return Ok;
      }
      ok := Store(failAt);
      ImageOkIff(eeprom);
      r := if ok then Ok else Failed;
    }

    /** What a set that was not denied leaves: the entries follow SetStep from `start`, and only
        a successful set signs the cached image and reaches the EEPROM. */
    ghost predicate Outcome(r: Response, readable: bool, start: seq<Entry>, tag: nat, data: seq<Byte>,
                            noSync: bool, failAt: nat)
      reads this, image
    {
      if !readable then r == Failed && !synced
      else
        && WellFormed(start) && Valid()
        && var (status, es) := SetStep(start, EnumTag(tag, wideEnums), data, image.Length, unlocked);
           && entries == es
           && (r == InvalidParam <==> status != Success)
           && (status == Success ==>
                 && synced && ImageOk(image[..])
                 && (r == Ok <==> noSync || TotalSize(image[..]) <= PAGE * failAt)
                 && (r == Ok && !noSync ==> ImageOk(eeprom) && stored == entries))
    }

    /** hc_cbi_bin_write up to the buffer (lines 463-497); the EEPROM is as large as the image. */
    method BinBuffer(offset: nat, data: seq<Byte>, clear: bool) returns (r: Response)
      modifies image
      ensures r == Denied <==> writeProtected
      ensures r == InvalidParam <==>
        !writeProtected && (offset >= image.Length || offset + |data| > image.Length)
      ensures r == Denied || r == InvalidParam || r == Ok
      ensures if r == Ok then image[..] == Overlay(old(image[..]), offset, data, clear)
        else image[..] == old(image[..])
      ensures r == Ok ==> forall i | 0 <= i < image.Length ::
        image[i] == if offset <= i < offset + |data| then data[i - offset]
                    else if clear then 0xFF else old(image[i])
    {
      if writeProtected {
        return Denied;
      }
      if offset >= image.Length || offset + |data| > image.Length {
        return InvalidParam;
      }
      if clear {
        for i := 0 to image.Length
          invariant forall j | 0 <= j < i :: image[j] == 0xFF
        {
          image[i] := 0xFF;
        }
      }
      ghost var base := image[..];
      for i := 0 to |data|
        invariant forall j | 0 <= j < image.Length && !(offset <= j < offset + i) :: image[j] == base[j]
        invariant forall j | 0 <= j < i :: image[offset + j] == data[j]
      {
        image[offset + i] := data[i];
      }
      return Ok;
    }

    /** hc_cbi_bin_write (lines 463-520). No lock is checked: what is stored replaces everything,
        the hardware tags too. Without a store, or with an image that fails the checks, a synced
        cache stays synced over bytes nobody has checked. */
    method BinWrite(offset: nat, data: seq<Byte>, clear: bool, store: bool, failAt: nat, attempts: seq<(bool, bool)>,
                    ghost es: seq<Entry>) returns (r: Response)
      requires Consistent() && |attempts| == 2
      requires offset + |data| <= image.Length ==>
        var img := Overlay(image[..], offset, data, clear);
        ImageOk(img) ==> Holds(img, es)
      modifies image, this`synced, this`entries, this`eeprom, this`stored
      ensures r == Denied <==> writeProtected
      ensures r == InvalidParam <==>
        !writeProtected && (offset >= image.Length || offset + |data| > image.Length)
      ensures r == Denied || r == InvalidParam ==> Consistent() && image[..] == old(image[..]) && stored == old(stored)
      ensures r == Ok || r == Failed ==>
        var img := Overlay(old(image[..]), offset, data, clear);
        if store && ImageOk(img) && TotalSize(img) <= PAGE * failAt then
          && Consistent() && ImageOk(eeprom) && stored == es
          && (r == Ok <==> (false, false) in attempts) && synced == (r == Ok) && (r == Ok ==> entries == es)
        else
          && (r == Ok <==> !store) && image[..] == img && synced == old(synced)
          && (!store || !ImageOk(img) ==> eeprom == old(eeprom))
    {
      hide Holds, ImageOk, TotalSize;
      r := BinBuffer(offset, data, clear);
      if r != Ok || !store {
        return;
      }
      if !ImageOk(image[..]) {
        return Failed;
      }
      entries := es;
      HoldsSize(image[..], es);
      var ok := EepromWrite(failAt);
      if !ok {
        return Failed;
      }
      StoredImage(image[..], eeprom, es);
      stored := es;
      InvalidateCache();
      ok := CbiRead(attempts);
      r := if ok then Ok else Failed;
    }

    /** The value of a hardware tag, in the EEPROM and in a synced cache. */
    ghost predicate Fixed(t: Byte, v: seq<Byte>)
      reads this
    {
      ImageOk(eeprom) && Has(stored, t, v) && (synced ==> Has(entries, t, v))
    }

    ghost predicate IsTorn(a: Action, r: Response)
      reads this
    {
      a.Write? && r == Failed && synced
    }

    /** One set on a locked system. */
    method SetLocked(a: Action, ghost t: Byte, ghost v: seq<Byte>) returns (r: Response, ghost e: Effect)
      requires Consistent() && Fixed(t, v) && !unlocked && (t == TAG_BOARD_VERSION || t == TAG_OEM_ID)
      requires IsAction(a) && a.Write?
      modifies image, this`synced, this`entries, this`eeprom, this`stored
      ensures (e == Torn <==> IsTorn(a, r)) && (e == Torn ==> !a.noSync && !writeProtected) && e != Replaced
      ensures e == Initialised <==> a.init && r != Denied && !IsTorn(a, r)
      ensures a.init ==> (r == Denied <==> old(ImageOk(image[..])) || (writeProtected && !a.noSync))
      ensures e == Unsigned <==>
        || (r == Failed && !synced)
        || (r == InvalidParam && !a.init && entries != if old(synced) then old(entries) else old(stored))
      ensures e == Kept || e == Unsigned ==> Consistent() && Fixed(t, v)
      ensures e == Kept && old(ImageOk(image[..])) ==> ImageOk(image[..])
      ensures e == Initialised && r == Ok && !a.noSync ==>
        && Consistent() && ImageOk(eeprom)
        && (Fixed(t, v) <==> a.tag % 256 == t && Cut(a.data) == v && v != [])
    {
      hide Holds, ImageOk, TotalSize, SetStep, ToMap, WellFormed;
      ghost var start := if synced then entries else stored;
      r := CommonSet(a.tag, a.data, a.init, a.noSync, a.attempts, a.failAt);
      if r == Denied {
        e := Kept;
      } else if IsTorn(a, r) {
        e := Torn;
      } else if a.init {
        e := Initialised;
        FromEmpty(EnumTag(a.tag, wideEnums), a.data, image.Length, t, v);
      } else if r == Failed {
        e := Unsigned;
      } else {
        SetKeepsHardware(start, EnumTag(a.tag, wideEnums), a.data, image.Length, t, v);
        e := if r == InvalidParam && entries != start then Unsigned else Kept;
      }
    }

    /** One action on a locked system; `lost` says that the hardware tags may be lost with it. */
    method ActLocked(a: Action, ghost t: Byte, ghost v: seq<Byte>) returns (lost: bool, ghost e: Effect)
      requires Consistent() && Fixed(t, v) && !unlocked && (t == TAG_BOARD_VERSION || t == TAG_OEM_ID)
      requires IsAction(a)
      modifies image, this`synced, this`entries, this`eeprom, this`stored, this`writeProtected
      ensures lost <==> e == Initialised || e == Torn || e == Replaced
      ensures e == Initialised ==> a.Write? && a.init && !old(ImageOk(image[..]))
      ensures e == Torn ==> a.Write? && !a.noSync
      ensures e == Replaced <==> a.Binary? && !old(writeProtected) && a.offset < image.Length
                                 && a.offset + |a.data| <= image.Length
      ensures lost ==> (a.Write? && a.noSync) || !old(writeProtected)
      ensures !lost ==> Consistent() && Fixed(t, v)
      ensures e == Kept && old(ImageOk(image[..])) ==> ImageOk(image[..])
    {
      hide Holds, ImageOk, TotalSize, ToMap;
      match a {
        case Read(attempts) =>
          var ok := CbiRead(attempts);
          lost, e := false, if ok then Kept else Unsigned;
        case Drop =>
          InvalidateCache();
          lost, e := false, Kept;
        case Protect(on) =>
          writeProtected := on;
          lost, e := false, Kept;
        case Write(_, _, init, _, _, _) =>
          var r;
          r, e := SetLocked(a, t, v);
          lost := (init && r != Denied) || (r == Failed && synced);
        case Binary(offset, data, clear) =>
          var r := BinBuffer(offset, data, clear);
          lost, e := r == Ok, if r == Ok then Replaced else Kept;
      }
    }

    /** Every run of a locked system keeps its hardware tags, in the EEPROM and in a synced cache,
        up to the first torn write, accepted initialisation or binary write. No initialisation is accepted while
        the cache passed the checks at the start and no action left it unsigned. */
    method RunLocked(acts: seq<Action>, ghost t: Byte, ghost v: seq<Byte>)
      returns (lost: bool, n: nat, ghost effects: seq<Effect>)
      requires Consistent() && Fixed(t, v) && !unlocked && (t == TAG_BOARD_VERSION || t == TAG_OEM_ID)
      requires forall i | 0 <= i < |acts| :: IsAction(acts[i])
      modifies image, this`synced, this`entries, this`eeprom, this`stored, this`writeProtected
      ensures if lost then n < |acts| else n == |acts|
      ensures |effects| == if lost then n + 1 else n
      ensures forall i | 0 <= i < n :: effects[i] == Kept || effects[i] == Unsigned
      ensures !lost ==> Consistent() && Fixed(t, v)
      ensures lost ==>
        || (acts[n].Write? && effects[n] == Torn)
        || (acts[n].Write? && acts[n].init && effects[n] == Initialised)
        || (acts[n].Binary? && effects[n] == Replaced)
      ensures lost && effects[n] == Initialised && old(ImageOk(image[..])) ==> Unsigned in effects
    {
      hide ImageOk, Fixed, Consistent;
      lost, n, effects := false, 0, [];
      while n < |acts|
        invariant n == |effects| <= |acts|
        invariant Consistent() && Fixed(t, v)
        invariant forall i | 0 <= i < n :: effects[i] == Kept || effects[i] == Unsigned
        invariant old(ImageOk(image[..])) && Unsigned !in effects ==> ImageOk(image[..])
      {
        ghost var e;
        lost, e := ActLocked(acts[n], t, v);
        effects := effects + [e];
        assert e == effects[n];
        if lost {
          return;
        }
        n := n + 1;
      }
    }

    /** Data that were set and stored are what is read back from the EEPROM after the cache was
        dropped, as long as one of the two read attempts gets through: exactly if their tag and size
        fit eight bits, there are any, and they did not go behind another entry of the tag. */
    method SetAndReadBack(tag: nat, data: seq<Byte>, buf: array<Byte>, size: Byte, readFails: seq<(bool, bool)>,
                          fails: seq<(bool, bool)>, failAt: nat)
      returns (r: Response, status: Status, newSize: Byte)
      requires Consistent() && |fails| == |readFails| == 2
      requires buf != image && |data| % 256 <= size <= buf.Length && ((false, false) in readFails)
      modifies image, this`synced, this`entries, this`eeprom, this`stored, buf
      ensures newSize <= size
      ensures var start := if old(synced) then old(entries) else old(stored);
        r == Ok ==>
          WellFormed(start)
          && (status == Success && buf[..newSize] == data <==> ReadsBack(start, EnumTag(tag, wideEnums), data))
    {
      hide Holds, ImageOk, TotalSize, SetStep, ToMap, WellFormed, Cut, Unique;
      status, newSize := Unknown, size;
      ghost var start := if synced then entries else stored;
      var t := EnumTag(tag, wideEnums);
      r := CommonSet(tag, data, false, false, fails, failAt);
      if r == Ok {
        ReadsBackIff(start, t, data, image.Length, unlocked);
        CutFits(data);
        InvalidateCache();
        status, newSize := GetBoardInfo(t, buf, size, readFails);
      }
    }
  }

  // ----- A locked system -----

  /** What reaches the image: a read, a dropped cache, the write protection, a set, and the bytes of
      a binary write. */
  datatype Action =
    | Read(attempts: seq<(bool, bool)>)
    | Drop
    | Protect(on: bool)
    | Write(tag: nat, data: seq<Byte>, init: bool, noSync: bool, attempts: seq<(bool, bool)>, failAt: nat)
    | Binary(offset: nat, data: seq<Byte>, clear: bool)

  predicate IsAction(a: Action) {
    a.Read? || a.Write? ==> |a.attempts| == 2
  }

  /** What an action did to the guard of a hardware tag. Unsigned: the cache may no longer pass
      the checks, because its read failed or an overflowing set took a value out. */
  datatype Effect = Kept | Unsigned | Initialised | Torn | Replaced

  /** The bytes of an image after a binary write. */
  function Overlay(img: seq<Byte>, offset: nat, data: seq<Byte>, clear: bool): (img': seq<Byte>)
    requires offset + |data| <= |img|
    ensures |img'| == |img|
  {
    var base := if clear then seq(|img|, _ => 0xFF as Byte) else img;
    base[..offset] + data + base[offset + |data|..]
  }

  predicate Has(es: seq<Entry>, tag: Byte, value: seq<Byte>) {
    tag in ToMap(es) && ToMap(es)[tag] == value
  }

  /** A set cannot change a hardware tag that is present, nor take it out. */
  lemma SetKeepsHardware(es: seq<Entry>, tag: nat, data: seq<Byte>, imageSize: nat, t: Byte, v: seq<Byte>)
    requires WellFormed(es) && Has(es, t, v) && (t == TAG_BOARD_VERSION || t == TAG_OEM_ID)
    ensures Has(SetStep(es, tag, data, imageSize, false).1, t, v)
  {
    hide SetStep, ToMap, WellFormed, IndexOf, Serialize, Without, Cut;
    SetRefinesMap(es, tag, data, imageSize, false);
  }

  lemma CutFits(data: seq<Byte>)
    ensures |Cut(data)| == |data| % 256
  {}

  /** Before the first read nothing guards a locked system: the zeroed cache fails the checks,
      so an initialisation is accepted and a hardware tag the EEPROM held is gone. */
  method FirstInitForgets(size: nat, wide: bool, contents: seq<Byte>, ghost es: seq<Entry>, t: Byte,
                          ghost v: seq<Byte>)
    returns (board: BoardInfo, r: Response)
    requires HEADER + 3 <= size < 0x1_0000 && |contents| == size
    requires ImageOk(contents) && Holds(contents, es) && Has(es, t, v)
    requires t == TAG_BOARD_VERSION || t == TAG_OEM_ID
    ensures fresh(board) && !board.unlocked
    ensures r == Ok && board.Consistent() && ImageOk(board.eeprom) && t !in ToMap(board.stored)
  {
    hide Holds, ImageOk, TotalSize, SetStep, Serialize, ToMap, WellFormed;
    board := new BoardInfo(size, true, wide, false, contents, es);
    r := board.CommonSet(2, [0], true, false, [(false, false), (false, false)], size);
    FromEmpty(2, [0], size, t, v);
    FirstFits(2, [0], size);
    HoldsSize(board.image[..], board.entries);
  }

  lemma FirstFits(tag: nat, data: seq<Byte>, imageSize: nat)
    requires HEADER + 2 + |data| % 256 <= imageSize
    ensures WellFormed([]) && SetStep([], tag, data, imageSize, false).0 == Success
  {}

  lemma HoldsSize(bytes: seq<Byte>, es: seq<Entry>)
    requires Holds(bytes, es)
    ensures TotalSize(bytes) <= |bytes|
  {}

  /** After a set on the empty list a tag has a value exactly when it was set to it, by its low byte. */
  lemma FromEmpty(tag: nat, data: seq<Byte>, imageSize: nat, t: Byte, v: seq<Byte>)
    ensures WellFormed([])
    ensures var (status, es) := SetStep([], tag, data, imageSize, false);
      status == Success ==>
        && (t in ToMap(es) <==> tag % 256 == t && Cut(data) != [])
        && (Has(es, t, v) <==> tag % 256 == t && Cut(data) == v && v != [])
  {
    hide SetStep, WellFormed, IndexOf, Serialize, Without, Cut;
    EmptyList(tag);
    SetRefinesMap([], tag, data, imageSize, false);
  }

  lemma EmptyList(tag: nat)
    ensures WellFormed([]) && ToMap([]) == map[] && Removed([], tag) == []
  {}

  lemma PageWritten(now: seq<Byte>, was: seq<Byte>, img: seq<Byte>, p: nat, size: nat)
    requires |was| == |img| && p + size <= |img| && now == img[..p] + was[p..]
    ensures now[..p] + img[p..p + size] + now[p + size..] == img[..p + size] + was[p + size..]
  {
    assert now[..p] == img[..p];
    assert now[p + size..] == was[p + size..] by {
      forall k | p + size <= k < |was| ensures now[k] == was[k] {}
    }
    assert img[..p + size] == img[..p] + img[p..p + size];
  }

  lemma StoredImage(img: seq<Byte>, now: seq<Byte>, es: seq<Entry>)
    requires ImageOk(img) && Holds(img, es) && |now| == |img| && now[..TotalSize(img)] == img[..TotalSize(img)]
    ensures ImageOk(now) && Holds(now, es)
  {
    hide Serialize, Crc8.Hash;
    forall i | 0 <= i < TotalSize(img) ensures now[i] == img[i] {
      assert now[i] == now[..TotalSize(img)][i];
    }
    SamePrefix(img, now, TotalSize(img));
    HoldsPrefix(now, img, es);
  }

  lemma SamePrefix(a: seq<Byte>, b: seq<Byte>, total: nat)
    requires HEADER <= total <= |a| == |b| && TotalSize(a) == total
    requires forall i | 0 <= i < total :: a[i] == b[i]
    ensures a[..total] == b[..total] && TotalSize(b) == total
    ensures HeaderOk(a) == HeaderOk(b) && Crc(a) == Crc(b)
  {
    hide Crc8.Hash;
    assert a[..3] == b[..3];
    assert a[4..total] == b[4..total];
  }

  /** What an image holds lies in its first total_size bytes. */
  lemma HoldsPrefix(a: seq<Byte>, b: seq<Byte>, es: seq<Entry>)
    requires Holds(b, es) && |a| == |b| && a[..TotalSize(b)] == b[..TotalSize(b)]
    ensures Holds(a, es)
  {
    hide Serialize;
    var total := TotalSize(b);
    assert a[6] == a[..total][6] && a[7] == a[..total][7];
    assert a[HEADER..total] == a[..total][HEADER..] == b[HEADER..total];
  }

  lemma SignedPrefix(a: seq<Byte>, b: seq<Byte>)
    requires ImageOk(b) && |a| == |b| && a[..TotalSize(b)] == b[..TotalSize(b)]
    ensures ImageOk(a) && a[..3] == MAGIC
  {
    hide Crc8.Hash;
    var total := TotalSize(b);
    forall i | 0 <= i < total ensures a[i] == b[i] {
      assert a[i] == a[..total][i];
    }
    SamePrefix(b, a, total);
    assert a[..3] == a[..total][..3] == b[..total][..3] == b[..3];
  }

  lemma HoldsList(bytes: seq<Byte>, es: seq<Entry>)
    requires Holds(bytes, es)
    ensures WellFormed(es)
  {}

  lemma HoldsBody(a: seq<Byte>, b: seq<Byte>, es: seq<Entry>)
    requires Holds(b, es) && |a| == |b| && forall i | 6 <= i < |b| :: a[i] == b[i]
    ensures Holds(a, es)
  {
    hide Serialize;
    assert a[HEADER..TotalSize(b)] == b[HEADER..TotalSize(b)];
  }

  lemma CrcIgnoresSignature(a: seq<Byte>, b: seq<Byte>)
    requires HEADER <= |a| == |b| && HEADER <= TotalSize(b) <= |b|
    requires forall i | 4 <= i < |b| :: a[i] == b[i]
    ensures TotalSize(a) == TotalSize(b) && Crc(a) == Crc(b)
  {
    hide Crc8.Hash;
    assert a[4..TotalSize(b)] == b[4..TotalSize(b)];
  }

  lemma SameTotalSize(before: seq<Byte>, after: seq<Byte>)
    requires |before| == |after| >= HEADER && TotalSize(before) == TotalSize(after)
    requires forall i | 0 <= i < |after| && i != 6 && i != 7 :: after[i] == before[i]
    ensures after == before
  {}

  lemma AppendedImage(before: seq<Byte>, after: seq<Byte>, es: seq<Entry>, e: Entry)
    requires Holds(before, es) && IsEntry(e) && |after| == |before|
    requires var p := TotalSize(before);
      && p + 2 + |e.value| <= |after| && TotalSize(after) == p + 2 + |e.value|
      && after[p] == e.tag && after[p + 1] == |e.value| && after[p + 2..p + 2 + |e.value|] == e.value
      && forall i | HEADER <= i < p :: after[i] == before[i]
    ensures Holds(after, es + [e])
  {
    hide Serialize, TotalSize;
    SerializeConcat(es, [e]);
    SerializeOne(e);
    AppendedBody(before, after, Serialize(es), e);
  }

  lemma AppendedBody(before: seq<Byte>, after: seq<Byte>, a: seq<Byte>, e: Entry)
    requires IsEntry(e) && HEADER + |a| + 2 + |e.value| <= |after| == |before|
    requires before[HEADER..HEADER + |a|] == a
    requires var p := HEADER + |a|;
      && after[p] == e.tag && after[p + 1] == |e.value| && after[p + 2..p + 2 + |e.value|] == e.value
      && forall i | HEADER <= i < p :: after[i] == before[i]
    ensures after[HEADER..HEADER + |a| + 2 + |e.value|] == a + Bytes(e)
  {
    var p := HEADER + |a|;
    assert after[HEADER..p] == a by {
      forall i: nat | i < |a| ensures after[HEADER + i] == a[i] {
        assert a[i] == before[HEADER..p][i];
      }
    }
    assert after[p..p + 2 + |e.value|] == Bytes(e) by {
      forall i: nat | i < |Bytes(e)| ensures after[p + i] == Bytes(e)[i] {
        if i >= 2 {
          assert after[p + 2..p + 2 + |e.value|][i - 2] == e.value[i - 2];
        }
      }
    }
    assert after[HEADER..p + 2 + |e.value|] == after[HEADER..p] + after[p..p + 2 + |e.value|];
  }

  lemma OverwrittenImage(before: seq<Byte>, after: seq<Byte>, es: seq<Entry>, k: nat, value: seq<Byte>)
    requires Holds(before, es) && k < |es| && |value| == |es[k].value| && |after| == |before|
    requires var p := Offset(es, k);
      && p + 2 + |value| <= |after| && after[p + 2..p + 2 + |value|] == value
      && forall i | 0 <= i < |after| && !(p + 2 <= i < p + 2 + |value|) :: after[i] == before[i]
    ensures Holds(after, es[k := Entry(es[k].tag, value)])
  {
    hide Serialize;
    var e := Entry(es[k].tag, value);
    var es' := es[k := e];
    ReplacedSize(es, k, e);
    SerializeAround(es, k);
    SerializeAround(es', k);
    assert es'[..k] == es[..k] && es'[k + 1..] == es[k + 1..];
    var a, b, c := Serialize(es[..k]), Bytes(es[k]), Serialize(es[k + 1..]);
    var total := TotalSize(before);
    var body := before[HEADER..total];
    assert body == a + b + c;
    assert TotalSize(after) == total;
    EntryAt(before, es, k);
    forall i: nat | i < |body| ensures after[HEADER + i] == (a + Bytes(e) + c)[i] {
      if i < |a| || i >= |a| + 2 + |value| {
        assert after[HEADER + i] == before[HEADER + i] == body[i];
      } else if i < |a| + 2 {
        assert after[HEADER + i] == before[HEADER + i] == body[i];
      } else {
        assert after[HEADER + i] == value[i - |a| - 2];
      }
    }
    assert after[HEADER..total] == a + Bytes(e) + c;
  }

  lemma HeaderKept(before: seq<Byte>, after: seq<Byte>, p: nat, next: nat, n: nat)
    requires HEADER <= p && p + n <= |before| && next + n <= |before| == |after|
    requires forall i | 0 <= i < |after| && i != 6 && i != 7 :: after[i] == Memory.Copied(before, p, next, n)[i]
    ensures after[..6] == before[..6]
  {}

  /** Moving the tail down over an entry leaves the list without it. */
  lemma RemovedImage(before: seq<Byte>, after: seq<Byte>, es: seq<Entry>, k: nat)
    requires Holds(before, es) && k < |es| && |after| == |before|
    requires Offset(es, k) <= Offset(es, k + 1) <= TotalSize(before)
    requires TotalSize(after) == TotalSize(before) - (2 + |es[k].value|)
    requires var p, next := Offset(es, k), Offset(es, k + 1);
      forall i | 0 <= i < |after| && i != 6 && i != 7 ::
        after[i] == Memory.Copied(before, p, next, TotalSize(before) - next)[i]
    ensures Holds(after, Without(es, k))
  {
    hide Serialize, TotalSize, Memory.Copied;
    EntryAt(before, es, k);
    WithoutWellFormed(es, k);
    SerializeAround(es, k);
    SerializeConcat(es[..k], es[k + 1..]);
    var a, b, c := Serialize(es[..k]), Bytes(es[k]), Serialize(es[k + 1..]);
    var p, next, total := Offset(es, k), Offset(es, k + 1), TotalSize(before);
    var body := before[HEADER..total];
    assert body == a + b + c;
    forall i: nat | i < |a| + |c| ensures after[HEADER + i] == (a + c)[i] {
      Memory.CopiedAt(before, p, next, total - next, HEADER + i);
      if i < |a| {
        assert before[HEADER + i] == body[i];
      } else {
        assert before[next + (HEADER + i - p)] == body[i + |b|];
      }
    }
    assert after[HEADER..TotalSize(after)] == a + c;
  }

  lemma FirstIs(es: seq<Entry>, k: nat, tag: nat)
    requires k < |es| && es[k].tag == tag && forall i | 0 <= i < k :: es[i].tag != tag
    ensures IndexOf(es, tag) == k
  {}
}
