/** The tag/length/value list inside a board-info image (common/cbi.c), as a value: what one
    set does to the list of entries, when the list is a finite map, and when it stops being one. */
module CbiStore {
  import opened Octets

  datatype Entry = Entry(tag: Byte, value: seq<Byte>)

  datatype Status = Success | Unknown | Inval | Overflow | AccessDenied | Protected

  /** Tags that are part of the hardware and stay fixed while the system is locked. */
  const TAG_BOARD_VERSION: Byte := 0
  const TAG_OEM_ID: Byte := 1

  /** Size of the image header, in front of the first entry. */
  const HEADER: nat := 8

  predicate IsEntry(e: Entry) {
    1 <= |e.value| < 256
  }

  ghost predicate WellFormed(es: seq<Entry>) {
    forall i | 0 <= i < |es| :: IsEntry(es[i])
  }

  ghost predicate Unique(es: seq<Entry>) {
    forall i, j | 0 <= i < j < |es| :: es[i].tag != es[j].tag
  }

  /** A request's 32-bit tag as an enum: one byte where enums are as short as they can be. */
  function EnumTag(tag: nat, wide: bool): (t: nat)
    ensures t % 256 == tag % 256 && if wide then t == tag else t < 256
  {
    if wide then tag else tag % 256
  }

  /** The data a set takes over: its size passes through eight bits. */
  function Cut(data: seq<Byte>): (value: seq<Byte>)
    ensures |value| < 256 && (value == data <==> |data| < 256)
  {
    data[..|data| % 256]
  }

  /** One entry as it lies in the image: tag, size, value. */
  function Bytes(e: Entry): (b: seq<Byte>)
    requires IsEntry(e)
    ensures |b| == |e.value| + 2
  {
    [e.tag, |e.value|] + e.value
  }

  function Serialize(es: seq<Entry>): seq<Byte>
    requires forall i | 0 <= i < |es| :: IsEntry(es[i])
  {
    if es == [] then [] else Bytes(es[0]) + Serialize(es[1..])
  }

  /** Where the walk finds a tag; the length of the list when it does not. */
  function IndexOf(es: seq<Entry>, tag: nat): (k: nat)
    ensures k <= |es|
    ensures k < |es| ==> es[k].tag == tag
    ensures forall i | 0 <= i < k :: es[i].tag != tag
  {
    if es == [] || es[0].tag == tag then 0 else 1 + IndexOf(es[1..], tag)
  }

  function Without(es: seq<Entry>, k: nat): (rest: seq<Entry>)
    requires k < |es|
    ensures |rest| == |es| - 1
  {
    es[..k] + es[k + 1..]
  }

  /** What cbi_set_board_info does to the entries (lines 222-260). An entry holds the low byte of
      the tag it was set with. */
  function SetStep(es: seq<Entry>, tag: nat, data: seq<Byte>, imageSize: nat, unlocked: bool): (Status, seq<Entry>)
    requires WellFormed(es)
  {
    var k, value := IndexOf(es, tag), Cut(data);
    if k < |es| && !unlocked && (tag == TAG_BOARD_VERSION || tag == TAG_OEM_ID) then (AccessDenied, es)
    else if k < |es| && |es[k].value| == |value| then (Success, es[k := Entry(es[k].tag, value)])
    else
      var rest := if k < |es| then Without(es, k) else es;
      if imageSize < HEADER + |Serialize(rest)| + 2 + |value| then (Overflow, rest)
      else (Success, if value == [] then rest else rest + [Entry(tag % 256, value)])
  }

  lemma WithoutWellFormed(es: seq<Entry>, k: nat)
    requires WellFormed(es)
    ensures k < |es| ==> WellFormed(Without(es, k))
  {}

  // ----- Layout -----

  lemma {:induction false} SerializeConcat(a: seq<Entry>, b: seq<Entry>)
    requires forall i | 0 <= i < |a| :: IsEntry(a[i])
    requires forall i | 0 <= i < |b| :: IsEntry(b[i])
    ensures Serialize(a + b) == Serialize(a) + Serialize(b)
  {
    hide Bytes;
    if a == [] {
      assert a + b == b;
    } else {
      assert (a + b)[1..] == a[1..] + b;
      SerializeConcat(a[1..], b);
      assert Bytes(a[0]) + (Serialize(a[1..]) + Serialize(b)) == (Bytes(a[0]) + Serialize(a[1..])) + Serialize(b);
    }
  }

  lemma SerializeOne(e: Entry)
    requires IsEntry(e)
    ensures Serialize([e]) == Bytes(e)
  {
    assert [e][1..] == [];
  }

  lemma SerializeSplit(es: seq<Entry>, k: nat)
    requires k <= |es| && forall i | 0 <= i < |es| :: IsEntry(es[i])
    ensures Serialize(es) == Serialize(es[..k]) + Serialize(es[k..])
  {
    hide Serialize;
    assert es == es[..k] + es[k..];
    SerializeConcat(es[..k], es[k..]);
  }

  /** The image around entry k. */
  lemma SerializeAround(es: seq<Entry>, k: nat)
    requires k < |es| && forall i | 0 <= i < |es| :: IsEntry(es[i])
    ensures Serialize(es) == Serialize(es[..k]) + Bytes(es[k]) + Serialize(es[k + 1..])
  {
    hide Bytes, Serialize;
    SerializeSplit(es, k);
    SerializeFrom(es, k);
    var a, b, c := Serialize(es[..k]), Bytes(es[k]), Serialize(es[k + 1..]);
    assert a + (b + c) == a + b + c;
  }

  lemma SerializeFrom(es: seq<Entry>, k: nat)
    requires k < |es| && forall i | 0 <= i < |es| :: IsEntry(es[i])
    ensures Serialize(es[k..]) == Bytes(es[k]) + Serialize(es[k + 1..])
  {
    hide Bytes;
    assert es[k..][1..] == es[k + 1..];
  }

  // ----- The entries as a finite map -----

  /** What a get finds: the first entry of a tag. */
  function ToMap(es: seq<Entry>): map<Byte, seq<Byte>> {
    map tag: Byte | IndexOf(es, tag) < |es| :: es[IndexOf(es, tag)].value
  }

  lemma {:induction false} IndexOfConcat(a: seq<Entry>, b: seq<Entry>, tag: nat)
    ensures IndexOf(a + b, tag) == if IndexOf(a, tag) < |a| then IndexOf(a, tag) else |a| + IndexOf(b, tag)
  {
    if a == [] {
      assert a + b == b;
    } else {
      assert (a + b)[1..] == a[1..] + b;
      IndexOfConcat(a[1..], b, tag);
    }
  }

  lemma IndexOfAround(es: seq<Entry>, k: nat, tag: nat)
    requires k < |es|
    ensures var a, c := es[..k], es[k + 1..];
      IndexOf(es, tag) ==
        if IndexOf(a, tag) < k then IndexOf(a, tag)
        else if es[k].tag == tag then k
        else k + 1 + IndexOf(c, tag)
  {
    hide IndexOf;
    var a, c := es[..k], es[k + 1..];
    assert es == a + ([es[k]] + c);
    IndexOfConcat(a, [es[k]] + c, tag);
    IndexOfConcat([es[k]], c, tag);
    IndexOfOne(es[k], tag);
  }

  lemma IndexOfOne(e: Entry, tag: nat)
    ensures IndexOf([e], tag) == if e.tag == tag then 0 else 1
  {}

  /** Looking another tag up after an entry was taken out. */
  lemma LookupWithout(es: seq<Entry>, k: nat, tag: nat)
    requires k < |es| && es[k].tag != tag
    ensures var j, j' := IndexOf(es, tag), IndexOf(Without(es, k), tag);
      && (j' < |es| - 1 <==> j < |es|)
      && (j' < |es| - 1 ==> Without(es, k)[j'] == es[j])
  {
    hide IndexOf;
    IndexOfAround(es, k, tag);
    IndexOfConcat(es[..k], es[k + 1..], tag);
    var j := IndexOf(es[..k], tag);
    var i := IndexOf(es[k + 1..], tag);
    if j < k {
      assert Without(es, k)[j] == es[j];
    } else if i < |es| - k - 1 {
      assert Without(es, k)[k + i] == es[k + 1 + i];
    }
  }

  lemma LookupAppend(es: seq<Entry>, e: Entry, tag: nat)
    ensures var j, j' := IndexOf(es, tag), IndexOf(es + [e], tag);
      && (j' < |es| + 1 <==> j < |es| || tag == e.tag)
      && (j' < |es| + 1 ==> (es + [e])[j'] == if j < |es| then es[j] else e)
  {
    hide IndexOf;
    IndexOfConcat(es, [e], tag);
    IndexOfOne(e, tag);
  }

  lemma LookupReplace(es: seq<Entry>, k: nat, e: Entry, tag: nat)
    requires WellFormed(es) && k < |es| && es[k].tag == e.tag && IsEntry(e)
    ensures WellFormed(es[k := e]) && IndexOf(es[k := e], tag) == IndexOf(es, tag)
  {
    hide IndexOf;
    var es' := es[k := e];
    assert es'[..k] == es[..k] && es'[k + 1..] == es[k + 1..];
    IndexOfAround(es, k, tag);
    IndexOfAround(es', k, tag);
  }

  lemma ToMapLookup(es: seq<Entry>, tag: nat)
    ensures tag in ToMap(es) <==> IndexOf(es, tag) < |es|
    ensures tag in ToMap(es) ==> tag < 256 && ToMap(es)[tag] == es[IndexOf(es, tag)].value
  {}

  /** The entries without the first of a tag, if there is one. */
  function Removed(es: seq<Entry>, tag: nat): seq<Entry> {
    if IndexOf(es, tag) < |es| then Without(es, IndexOf(es, tag)) else es
  }

  /** Taking the first entry of a tag out keeps what is found for every other tag; nothing is found
      for the tag itself exactly if it had one entry only. */
  lemma RemovedMap(es: seq<Entry>, tag: nat)
    requires WellFormed(es)
    ensures WellFormed(Removed(es, tag))
    ensures ToMap(Removed(es, tag)) - {tag} == ToMap(es) - {tag}
    ensures Unique(es) ==> Unique(Removed(es, tag)) && ToMap(Removed(es, tag)) == ToMap(es) - {tag}
  {
    hide IndexOf, ToMap, Unique, Removed;
    var m, m' := ToMap(Removed(es, tag)), ToMap(es);
    forall t: Byte | t != tag ensures (t in m) == (t in m') && (t in m ==> m[t] == m'[t]) {
      RemovedOther(es, tag, t);
    }
    if Unique(es) {
      RemovedUnique(es, tag);
    }
    RemovedWellFormed(es, tag);
  }

  lemma RemovedWellFormed(es: seq<Entry>, tag: nat)
    requires WellFormed(es)
    ensures WellFormed(Removed(es, tag))
  {}

  lemma RemovedOther(es: seq<Entry>, tag: nat, t: Byte)
    requires t != tag
    ensures var m, m' := ToMap(Removed(es, tag)), ToMap(es);
      (t in m <==> t in m') && (t in m ==> m[t] == m'[t])
  {
    hide IndexOf, ToMap, Without;
    var k := IndexOf(es, tag);
    ToMapLookup(es, t);
    ToMapLookup(Removed(es, tag), t);
    if k < |es| {
      LookupWithout(es, k, t);
    }
  }

  lemma RemovedUnique(es: seq<Entry>, tag: nat)
    requires Unique(es)
    ensures Unique(Removed(es, tag)) && tag !in ToMap(Removed(es, tag))
  {
    hide IndexOf, ToMap;
    var rest := Removed(es, tag);
    ToMapLookup(rest, tag);
    NotFound(rest, tag);
  }

  lemma MapAppend(es: seq<Entry>, e: Entry)
    ensures ToMap(es + [e]) == if e.tag in ToMap(es) then ToMap(es) else ToMap(es)[e.tag := e.value]
  {
    hide IndexOf;
    var m, m' := ToMap(es + [e]), if e.tag in ToMap(es) then ToMap(es) else ToMap(es)[e.tag := e.value];
    forall tag: Byte ensures (tag in m) == (tag in m') && (tag in m ==> m[tag] == m'[tag]) {
      LookupAppend(es, e, tag);
    }
  }

  lemma MapReplace(es: seq<Entry>, k: nat, e: Entry)
    requires WellFormed(es) && k < |es| && IndexOf(es, e.tag) == k && IsEntry(e)
    ensures ToMap(es[k := e]) == ToMap(es)[e.tag := e.value]
  {
    hide IndexOf, WellFormed;
    var m, m' := ToMap(es[k := e]), ToMap(es)[e.tag := e.value];
    forall tag: Byte ensures (tag in m) == (tag in m') && (tag in m ==> m[tag] == m'[tag]) {
      LookupReplace(es, k, e, tag);
    }
  }

  lemma AppendUnique(es: seq<Entry>, e: Entry)
    requires WellFormed(es) && IsEntry(e)
    ensures WellFormed(es + [e])
    ensures Unique(es + [e]) <==> Unique(es) && e.tag !in ToMap(es)
  {
    hide IndexOf, ToMap;
    ToMapLookup(es, e.tag);
    NotFound(es, e.tag);
    var all := es + [e];
    if Unique(all) {
      forall i, j | 0 <= i < j < |es| ensures es[i].tag != es[j].tag {
        assert all[i].tag != all[j].tag;
      }
      forall i | 0 <= i < |es| ensures es[i].tag != e.tag {
        assert all[i].tag != all[|es|].tag;
      }
    }
  }

  lemma NotFound(es: seq<Entry>, tag: nat)
    ensures IndexOf(es, tag) == |es| <==> forall i | 0 <= i < |es| :: es[i].tag != tag
  {}

  predicate Locked(es: seq<Entry>, tag: nat, unlocked: bool) {
    tag in ToMap(es) && !unlocked && (tag == TAG_BOARD_VERSION || tag == TAG_OEM_ID)
  }

  predicate SameSize(es: seq<Entry>, tag: nat, value: seq<Byte>) {
    tag in ToMap(es) && |ToMap(es)[tag]| == |value|
  }

  /** The set, case by case, in terms of what is found. */
  lemma SetCases(es: seq<Entry>, tag: nat, data: seq<Byte>, imageSize: nat, unlocked: bool)
    requires WellFormed(es)
    ensures WellFormed(Removed(es, tag))
    ensures var value := Cut(data);
      SetStep(es, tag, data, imageSize, unlocked)
      == if Locked(es, tag, unlocked) then (AccessDenied, es)
         else if SameSize(es, tag, value) then (Success, es[IndexOf(es, tag) := Entry(tag, value)])
         else if imageSize < HEADER + |Serialize(Removed(es, tag))| + 2 + |value| then (Overflow, Removed(es, tag))
         else (Success, if value == [] then Removed(es, tag) else Removed(es, tag) + [Entry(tag % 256, value)])
  {
    hide IndexOf, ToMap, Serialize, Without, Cut;
    RemovedMap(es, tag);
    ToMapLookup(es, tag);
  }

  /** One set, seen from what is found afterwards: what each outcome does to the tag, and to the tag
      its low byte names, and nothing to any other. An overflow still takes a value of another size
      out, and appending nothing also needs the two bytes of an entry header. */
  lemma SetRefinesMap(es: seq<Entry>, tag: nat, data: seq<Byte>, imageSize: nat, unlocked: bool)
    requires WellFormed(es)
    ensures var (status, es') := SetStep(es, tag, data, imageSize, unlocked);
      var m, m', rest, value := ToMap(es), ToMap(es'), ToMap(Removed(es, tag)), Cut(data);
      && WellFormed(es')
      && status in {Success, Overflow, AccessDenied}
      && (status == AccessDenied <==> !unlocked && (tag == 0 || tag == 1) && tag in m)
      && (status == AccessDenied ==> es' == es)
      && (status == Overflow ==> !(tag in m && |m[tag]| == |value|) && m' == rest)
      && (status == Success ==>
            m' == if tag in m && |m[tag]| == |value| then m[tag := value]
                  else if value == [] || tag % 256 in rest then rest
                  else rest[tag % 256 := value])
      && (forall t | t in m && t != tag :: t in m' && m'[t] == m[t])
      && (forall t | t in m' && t != tag && t != tag % 256 :: t in m)
  {
    hide SetStep, IndexOf, ToMap, Serialize, Removed, WellFormed, Cut;
    var value := Cut(data);
    SetCases(es, tag, data, imageSize, unlocked);
    RemovedMap(es, tag);
    RemovedKeeps(es, tag);
    ToMapLookup(es, tag);
    if SameSize(es, tag, value) {
      EntriesAreEntries(es, IndexOf(es, tag));
      LookupReplace(es, IndexOf(es, tag), Entry(tag, value), tag);
      MapReplace(es, IndexOf(es, tag), Entry(tag, value));
    }
    if value != [] {
      AppendUnique(Removed(es, tag), Entry(tag % 256, value));
      MapAppend(Removed(es, tag), Entry(tag % 256, value));
    }
  }

  lemma RemovedKeeps(es: seq<Entry>, tag: nat)
    requires WellFormed(es)
    ensures var m, rest := ToMap(es), ToMap(Removed(es, tag));
      && (forall t | t in m && t != tag :: t in rest && rest[t] == m[t])
      && (forall t | t in rest && t != tag :: t in m)
  {
    hide ToMap, Removed, WellFormed;
    var m, rest := ToMap(es), ToMap(Removed(es, tag));
    RemovedMap(es, tag);
    assert forall t | t in m && t != tag :: t in m - {tag};
    assert forall t | t in rest && t != tag :: t in rest - {tag};
  }

  lemma EntriesAreEntries(es: seq<Entry>, k: nat)
    requires WellFormed(es) && k < |es|
    ensures IsEntry(es[k])
  {}

  // ----- When the list is a map -----

  /** A tag beyond eight bits finds nothing, and is stored under its low byte. */
  ghost predicate Aliases(es: seq<Entry>, tag: nat, data: seq<Byte>, imageSize: nat, unlocked: bool)
    requires WellFormed(es)
  {
    && tag >= 256 && tag % 256 in ToMap(es) && Cut(data) != []
    && SetStep(es, tag, data, imageSize, unlocked).0 == Success
  }

  /** Tags stay unique exactly if the set does not do that beside a present tag. */
  lemma UniqueKeptIff(es: seq<Entry>, tag: nat, data: seq<Byte>, imageSize: nat, unlocked: bool)
    requires WellFormed(es) && Unique(es)
    ensures Unique(SetStep(es, tag, data, imageSize, unlocked).1) <==> !Aliases(es, tag, data, imageSize, unlocked)
  {
    hide SetStep, IndexOf, ToMap, Serialize, Removed, WellFormed, Cut;
    var value := Cut(data);
    SetCases(es, tag, data, imageSize, unlocked);
    RemovedMap(es, tag);
    ToMapLookup(es, tag);
    if value != [] {
      AppendUnique(Removed(es, tag), Entry(tag % 256, value));
    }
  }

  /** The data of a successful set is what a get of the same tag finds, exactly if tag and size fit
      eight bits, there are data, and they did not go behind another entry of the tag. */
  ghost predicate ReadsBack(es: seq<Entry>, tag: nat, data: seq<Byte>) {
    && tag < 256 && 0 < |data| < 256
    && (SameSize(es, tag, data)
        || var rest := ToMap(Removed(es, tag)); tag in rest ==> rest[tag] == data)
  }

  lemma ReadsBackIff(es: seq<Entry>, tag: nat, data: seq<Byte>, imageSize: nat, unlocked: bool)
    requires WellFormed(es)
    ensures var (status, es') := SetStep(es, tag, data, imageSize, unlocked);
      status == Success ==>
        && (tag in ToMap(es') && ToMap(es')[tag] == data <==> ReadsBack(es, tag, data))
        && (Unique(es) ==> (ReadsBack(es, tag, data) <==> tag < 256 && 0 < |data| < 256))
  {
    hide SetStep, IndexOf, ToMap, Serialize, Removed, Cut;
    SetRefinesMap(es, tag, data, imageSize, unlocked);
    RemovedMap(es, tag);
    var es' := SetStep(es, tag, data, imageSize, unlocked).1;
    ToMapLookup(es, tag);
    ToMapLookup(es', tag);
    ToMapLookup(Removed(es, tag), tag);
    if tag in ToMap(es') {
      EntriesAreEntries(es', IndexOf(es', tag));
    }
  }

  /** The size of 256 is cut to none, which takes the tag out; the tag 258 is stored beside tag 2, and
      the next set of tag 2 then brings its value to light and hides its own. */
  lemma WideRequests(v: Byte, w: Byte, data: seq<Byte>, imageSize: nat, unlocked: bool)
    requires imageSize >= HEADER + 7 && |data| == 256
    ensures var es := [Entry(2, [v])];
      var twice := [Entry(2, [v]), Entry(2, [w])];
      && WellFormed(es) && WellFormed(twice)
      && SetStep(es, 2, data, imageSize, unlocked) == (Success, [])
      && SetStep(es, 258, [w], imageSize, unlocked) == (Success, twice)
      && SetStep(twice, 2, [v, v], imageSize, unlocked) == (Success, [Entry(2, [w]), Entry(2, [v, v])])
  {
    var es, twice := [Entry(2, [v])], [Entry(2, [v]), Entry(2, [w])];
    assert Cut(data) == [] && Cut([w]) == [w] && Cut([v, v]) == [v, v];
    assert Without(es, 0) == [] && Without(twice, 0) == [Entry(2, [w])];
    SerializeOne(es[0]);
    SerializeOne(twice[1]);
    NotFound(es, 258);
    assert IndexOf(es, 2) == 0 && IndexOf(twice, 2) == 0 && IndexOf(es, 258) == 1 && |Serialize([])| == 0;
    hide Serialize, IndexOf, Cut, Without;
    assert es + [Entry(258 % 256, [w])] == twice;
    assert [Entry(2, [w])] + [Entry(2 % 256, [v, v])] == [Entry(2, [w]), Entry(2, [v, v])];
  }

  lemma RemovedSize(es: seq<Entry>, tag: nat)
    requires WellFormed(es)
    ensures WellFormed(Removed(es, tag))
    ensures |Serialize(es)|
         == |Serialize(Removed(es, tag))| + (if tag in ToMap(es) then |ToMap(es)[tag]| + 2 else 0)
  {
    hide Bytes, IndexOf, ToMap;
    var k := IndexOf(es, tag);
    ToMapLookup(es, tag);
    WithoutWellFormed(es, k);
    if k < |es| {
      SerializeAround(es, k);
      SerializeConcat(es[..k], es[k + 1..]);
    }
  }

  lemma ReplacedSize(es: seq<Entry>, k: nat, e: Entry)
    requires WellFormed(es) && k < |es| && es[k].tag == e.tag && |es[k].value| == |e.value|
    ensures WellFormed(es[k := e]) && |Serialize(es[k := e])| == |Serialize(es)|
  {
    hide Bytes;
    SerializeAround(es, k);
    SerializeAround(es[k := e], k);
    assert es[k := e][..k] == es[..k] && es[k := e][k + 1..] == es[k + 1..];
  }

  /** When a set overflows: exactly when the entry header and value do not fit behind what is
      left of the list. The list never outgrows the image. */
  lemma OverflowCondition(es: seq<Entry>, tag: nat, data: seq<Byte>, imageSize: nat, unlocked: bool)
    requires WellFormed(es) && HEADER + |Serialize(es)| <= imageSize
    ensures var m, value := ToMap(es), Cut(data);
      var (status, es') := SetStep(es, tag, data, imageSize, unlocked);
      var freed := if tag in m then |m[tag]| + 2 else 0;
      && WellFormed(es') && HEADER + |Serialize(es')| <= imageSize
      && (status == Overflow <==>
            && !Locked(es, tag, unlocked) && !SameSize(es, tag, value)
            && HEADER + |Serialize(es)| - freed + 2 + |value| > imageSize)
  {
    hide SetStep, IndexOf, ToMap, Serialize, Removed, WellFormed, Bytes, Cut;
    var value := Cut(data);
    SetRefinesMap(es, tag, data, imageSize, unlocked);
    SetCases(es, tag, data, imageSize, unlocked);
    RemovedSize(es, tag);
    ToMapLookup(es, tag);
    if SameSize(es, tag, value) {
      ReplacedSize(es, IndexOf(es, tag), Entry(tag, value));
    } else if value != [] {
      AppendedSize(Removed(es, tag), Entry(tag % 256, value));
    }
  }

  lemma AppendedSize(es: seq<Entry>, e: Entry)
    requires WellFormed(es) && IsEntry(e)
    ensures forall i | 0 <= i < |es + [e]| :: IsEntry((es + [e])[i])
    ensures |Serialize(es + [e])| == |Serialize(es)| + 2 + |e.value|
  {
    hide Bytes;
    SerializeConcat(es, [e]);
    SerializeOne(e);
  }

  // ----- Runs -----

  datatype Request = Set(tag: nat, data: seq<Byte>)

  function Run(es: seq<Entry>, reqs: seq<Request>, imageSize: nat, unlocked: bool): (es': seq<Entry>)
    requires WellFormed(es)
    ensures WellFormed(es')
  {
    if reqs == [] then es
    else
      var before := Run(es, reqs[..|reqs| - 1], imageSize, unlocked);
      var req := reqs[|reqs| - 1];
      SetRefinesMap(before, req.tag, req.data, imageSize, unlocked);
      SetStep(before, req.tag, req.data, imageSize, unlocked).1
  }

  lemma RunNext(es: seq<Entry>, reqs: seq<Request>, n: nat, imageSize: nat, unlocked: bool)
    requires WellFormed(es) && n < |reqs|
    ensures Run(es, reqs[..n + 1], imageSize, unlocked) ==
      SetStep(Run(es, reqs[..n], imageSize, unlocked), reqs[n].tag, reqs[n].data, imageSize, unlocked).1
  {
    hide SetStep;
    assert reqs[..n + 1][..n] == reqs[..n];
  }

  /** Over every run the entries stay inside the image, and while the system is locked a hardware
      tag that is present never changes. */
  lemma {:induction false} RunKeepsInvariant(es: seq<Entry>, reqs: seq<Request>, imageSize: nat, unlocked: bool)
    requires WellFormed(es) && HEADER + |Serialize(es)| <= imageSize
    ensures var es' := Run(es, reqs, imageSize, unlocked);
      && HEADER + |Serialize(es')| <= imageSize
      && forall tag | !unlocked && (tag == 0 || tag == 1) && tag in ToMap(es) ::
           tag in ToMap(es') && ToMap(es')[tag] == ToMap(es)[tag]
  {
    if reqs != [] {
      hide SetStep, ToMap, IndexOf, Serialize, WellFormed;
      var n := |reqs| - 1;
      var before, req := Run(es, reqs[..n], imageSize, unlocked), reqs[n];
      RunKeepsInvariant(es, reqs[..n], imageSize, unlocked);
      SetRefinesMap(before, req.tag, req.data, imageSize, unlocked);
      OverflowCondition(before, req.tag, req.data, imageSize, unlocked);
    }
  }

  /** A tag no request mentions keeps its value over every run, and its absence if no request
      mentions it by its low byte either. */
  lemma {:induction false} RunKeepsOthers(es: seq<Entry>, reqs: seq<Request>, imageSize: nat, unlocked: bool, tag: Byte)
    requires WellFormed(es) && forall i | 0 <= i < |reqs| :: reqs[i].tag != tag
    ensures var m, m' := ToMap(es), ToMap(Run(es, reqs, imageSize, unlocked));
      && (tag in m ==> tag in m' && m'[tag] == m[tag])
      && (tag !in m && (forall i | 0 <= i < |reqs| :: reqs[i].tag % 256 != tag) ==> tag !in m')
  {
    if reqs != [] {
      hide SetStep, ToMap, IndexOf, Serialize, WellFormed;
      var n := |reqs| - 1;
      RunKeepsOthers(es, reqs[..n], imageSize, unlocked, tag);
      SetRefinesMap(Run(es, reqs[..n], imageSize, unlocked), reqs[n].tag, reqs[n].data, imageSize, unlocked);
    }
  }

  ghost predicate UniqueAt(es: seq<Entry>, reqs: seq<Request>, n: nat, imageSize: nat, unlocked: bool)
    requires WellFormed(es) && n <= |reqs|
  {
    Unique(Run(es, reqs[..n], imageSize, unlocked))
  }

  ghost predicate AliasesAt(es: seq<Entry>, reqs: seq<Request>, n: nat, imageSize: nat, unlocked: bool)
    requires WellFormed(es) && n < |reqs|
  {
    Aliases(Run(es, reqs[..n], imageSize, unlocked), reqs[n].tag, reqs[n].data, imageSize, unlocked)
  }

  lemma UniqueStep(es: seq<Entry>, reqs: seq<Request>, n: nat, imageSize: nat, unlocked: bool)
    requires WellFormed(es) && n < |reqs| && UniqueAt(es, reqs, n, imageSize, unlocked)
    ensures UniqueAt(es, reqs, n + 1, imageSize, unlocked) <==> !AliasesAt(es, reqs, n, imageSize, unlocked)
  {
    hide Run, SetStep, Unique, Aliases;
    RunNext(es, reqs, n, imageSize, unlocked);
    UniqueKeptIff(Run(es, reqs[..n], imageSize, unlocked), reqs[n].tag, reqs[n].data, imageSize, unlocked);
  }

  /** Tags are unique all through a run exactly if they are at its start and no request stores beside
      a present tag; so always when every tag fits eight bits. */
  lemma {:induction false} RunUniqueIff(es: seq<Entry>, reqs: seq<Request>, n: nat, imageSize: nat, unlocked: bool)
    requires WellFormed(es) && n <= |reqs|
    ensures (forall k | 0 <= k <= n :: UniqueAt(es, reqs, k, imageSize, unlocked)) <==>
      Unique(es) && forall k | 0 <= k < n :: !AliasesAt(es, reqs, k, imageSize, unlocked)
    ensures Unique(es) && (forall k | 0 <= k < n :: reqs[k].tag < 256) ==> UniqueAt(es, reqs, n, imageSize, unlocked)
  {
    hide UniqueAt, AliasesAt, Unique;
    if n == 0 {
      UniqueStart(es, reqs, imageSize, unlocked);
    } else {
      RunUniqueIff(es, reqs, n - 1, imageSize, unlocked);
      NoAlias(es, reqs, n - 1, imageSize, unlocked);
      if UniqueAt(es, reqs, n - 1, imageSize, unlocked) {
        UniqueStep(es, reqs, n - 1, imageSize, unlocked);
      }
    }
  }

  lemma UniqueStart(es: seq<Entry>, reqs: seq<Request>, imageSize: nat, unlocked: bool)
    requires WellFormed(es)
    ensures UniqueAt(es, reqs, 0, imageSize, unlocked) <==> Unique(es)
  {
    assert reqs[..0] == [];
  }

  lemma NoAlias(es: seq<Entry>, reqs: seq<Request>, n: nat, imageSize: nat, unlocked: bool)
    requires WellFormed(es) && n < |reqs|
    ensures AliasesAt(es, reqs, n, imageSize, unlocked) ==> reqs[n].tag >= 256
  {}
}
