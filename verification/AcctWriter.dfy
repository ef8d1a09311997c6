// Writing pacct entries (csa/lib/acctio.c): the bytes an entry becomes, and the round trip through the reader.

module AcctWriter {
  import opened Basics
  import opened AcctHeader
  import opened AcctReader

  // The slots of struct acctent by record type; all site records share the slot `other`.
  const OTHER: int := KERNEL_SITE0
  type Slots = map<int, seq<byte>>

  function SlotOf(kind: int): int {
    if SiteType(kind) then OTHER else kind
  }

  // checktype over the records of an entry in the order they were read: a later record takes the slot.
  function SlotsOf(recs: seq<seq<byte>>): Slots
    requires forall r :: r in recs ==> |r| >= HDR_SIZE
  {
    if recs == [] then map[]
    else
      var last := recs[|recs| - 1];
      SlotsOf(recs[..|recs| - 1])[SlotOf(Decode(last).kind) := last]
  }

  // The order in which writeacctent takes the slots; `other` is not among them
  const WRITE_ORDER: seq<int> := [KERNEL_CSA, KERNEL_EOJ, KERNEL_MEM, KERNEL_IO, KERNEL_DELAY, KERNEL_SOJ,
                                  KERNEL_CFG, JOB_HEADER, DAEMON_WKMG]

  // The occupied slots, in the given order.
  function Present(slots: Slots, order: seq<int>): seq<seq<byte>> {
    if order == [] then []
    else (if order[0] in slots then [slots[order[0]]] else []) + Present(slots, order[1..])
  }

  // A record with AMORE set or cleared, as writepacct puts it in the file
  function Marked(rec: seq<byte>, more: bool): (r: seq<byte>)
    ensures |r| == |rec|
    ensures |rec| >= HDR_SIZE ==>
              r[HDR_SIZE..] == rec[HDR_SIZE..] && Decode(r) == Decode(rec).(flag := WithMore(rec[5], more))
  {
    if |rec| >= HDR_SIZE then rec[5 := WithMore(rec[5], more)] else rec
  }

  // The records of one entry: all but the last announce another.
  function Chain(recs: seq<seq<byte>>): (r: seq<seq<byte>>)
    ensures |r| == |recs|
    ensures forall k :: 0 <= k < |recs| ==> r[k] == Marked(recs[k], k < |recs| - 1)
  {
    if recs == [] then [] else [Marked(recs[0], |recs| > 1)] + Chain(recs[1..])
  }

  function Flat(recs: seq<seq<byte>>): seq<byte> {
    if recs == [] then [] else recs[0] + Flat(recs[1..])
  }

  // The bytes of an entry
  function EntryBytes(slots: Slots): seq<byte>
  {
    Flat(Chain(Present(slots, WRITE_ORDER)))
  }

  // A record the reader takes whole and unconverted.
  predicate WellFormed(rec: seq<byte>) {
    && |rec| >= HDR_SIZE
    && var h := Decode(rec);
       h.magic == ACCT_MAGIC && StructSize(h.kind) > 0 && h.revision == RevTab(h.kind) && h.size == |rec|
  }

  // Every record sits in the slot of its type; no site record.
  predicate RecordsWellFormed(slots: Slots) {
    forall kind :: kind in slots ==> WellFormed(slots[kind]) && Decode(slots[kind]).kind == kind
  }

  predicate AllWellFormed(recs: seq<seq<byte>>) {
    forall k :: 0 <= k < |recs| ==> WellFormed(recs[k])
  }

  // ---- Reading a chain back ----

  lemma ReadMarked(f: seq<byte>, p: nat, rec: seq<byte>, more: bool, room: int)
    requires WellFormed(rec) && |rec| <= room
    requires p + |rec| <= |f| && f[p..p + |rec|] == Marked(rec, more)
    ensures ReadRecord(f, p, room) == Record(Marked(rec, more), |rec|)
  {
    hide ConvertPacct, RevTab, StructSize;
    assert f[p..p + HDR_SIZE] == Marked(rec, more)[..HDR_SIZE];
  }

  lemma ChainStep(recs: seq<seq<byte>>)
    requires recs != []
    ensures Chain(recs) == [Marked(recs[0], |recs| > 1)] + Chain(recs[1..])
    ensures Flat(Chain(recs)) == Marked(recs[0], |recs| > 1) + Flat(Chain(recs[1..]))
    ensures |recs| == 1 ==> Chain(recs) == [Marked(recs[0], false)] && Flat(Chain(recs)) == Marked(recs[0], false)
  {
    hide Marked;
    assert Chain(recs)[1..] == Chain(recs[1..]);
  }

  // A chain that fits the buffer reads back record for record, wherever it stands in a file.
  lemma {:induction false} ReadChain(f: seq<byte>, p: nat, recs: seq<seq<byte>>, nbytes: nat)
    requires recs != [] && AllWellFormed(recs)
    requires nbytes + |Flat(Chain(recs))| <= ACCTENTSIZ
    requires p + |Flat(Chain(recs))| <= |f| && f[p..p + |Flat(Chain(recs))|] == Flat(Chain(recs))
    ensures ReadEntry(f, p, nbytes) == Entry(Chain(recs), p + |Flat(Chain(recs))|)
    decreases |recs|
  {
    hide ReadRecord, WithMore, WellFormed, Decode, PacctType, Marked, Flat, Chain;
    var all := Flat(Chain(recs));
    var head := Marked(recs[0], |recs| > 1);
    var n := |head|;
    ChainStep(recs);
    SliceOfSlice(f, p, |all|, 0, n);
    SliceOfSlice(f, p, |all|, n, |all| - n);
    ReadMarked(f, p, recs[0], |recs| > 1, ACCTENTSIZ - nbytes);
    MarkedKind(recs[0], |recs| > 1);
    if |recs| > 1 {
      ReadChain(f, p + n, recs[1..], nbytes + n);
    }
  }

  lemma MarkedKind(rec: seq<byte>, more: bool)
    requires WellFormed(rec)
    ensures |Marked(rec, more)| >= HDR_SIZE
    ensures PacctType(Decode(Marked(rec, more)).kind) && More(Decode(Marked(rec, more)).flag) == more
  {
  }

  // ---- The slots come back ----

  ghost predicate DistinctKinds(recs: seq<seq<byte>>) {
    && (forall k :: 0 <= k < |recs| ==> |recs[k]| >= HDR_SIZE)
    && forall i, j :: 0 <= i < j < |recs| ==> SlotOf(Decode(recs[i]).kind) != SlotOf(Decode(recs[j]).kind)
  }

  // With one record per slot, every record is found in its slot.
  lemma {:induction false} SlotHolds(recs: seq<seq<byte>>, k: nat)
    requires DistinctKinds(recs) && k < |recs|
    ensures var s := SlotOf(Decode(recs[k]).kind); s in SlotsOf(recs) && SlotsOf(recs)[s] == recs[k]
    decreases |recs|
  {
    hide Decode, SlotOf;
    if k < |recs| - 1 {
      var before := recs[..|recs| - 1];
      assert recs[k] == before[k];
      SlotHolds(before, k);
    }
  }

  // Every occupied slot holds one of the records.
  lemma {:induction false} SlotFrom(recs: seq<seq<byte>>, s: int) returns (k: nat)
    requires forall k :: 0 <= k < |recs| ==> |recs[k]| >= HDR_SIZE
    requires s in SlotsOf(recs)
    ensures k < |recs| && SlotOf(Decode(recs[k]).kind) == s
    decreases |recs|
  {
    hide Decode, SlotOf;
    k := |recs| - 1;
    if SlotOf(Decode(recs[k]).kind) != s {
      k := SlotFrom(recs[..|recs| - 1], s);
    }
  }

  lemma PresentStep(slots: Slots, order: seq<int>)
    requires order != []
    ensures Present(slots, order) ==
            if order[0] in slots then [slots[order[0]]] + Present(slots, order[1..]) else Present(slots, order[1..])
  {
  }

  // The record in a slot, if there is one
  function InSlot(slots: Slots, kind: int): seq<seq<byte>> {
    if kind in slots then [slots[kind]] else []
  }

  lemma {:induction false} PresentAppend(slots: Slots, order: seq<int>, kind: int)
    ensures Present(slots, order + [kind]) == Present(slots, order) + InSlot(slots, kind)
  {
    if order == [] {
      assert order + [kind] == [kind];
    } else {
      assert (order + [kind])[0] == order[0] && (order + [kind])[1..] == order[1..] + [kind];
      PresentAppend(slots, order[1..], kind);
    }
  }

  lemma PresentNext(slots: Slots, n: nat)
    requires n < |WRITE_ORDER|
    ensures Present(slots, WRITE_ORDER[..n + 1]) == Present(slots, WRITE_ORDER[..n]) + InSlot(slots, WRITE_ORDER[n])
  {
    hide Present, InSlot;
    PresentAppend(slots, WRITE_ORDER[..n], WRITE_ORDER[n]);
    assert WRITE_ORDER[..n + 1] == WRITE_ORDER[..n] + [WRITE_ORDER[n]];
  }

  // The records of an entry in the file: base record, end of job, the linked ones, then the rest.
  lemma OrderWritten(slots: Slots)
    ensures Present(slots, WRITE_ORDER) ==
            InSlot(slots, KERNEL_CSA) + InSlot(slots, KERNEL_EOJ)
            + InSlot(slots, KERNEL_MEM) + InSlot(slots, KERNEL_IO) + InSlot(slots, KERNEL_DELAY)
            + InSlot(slots, KERNEL_SOJ) + InSlot(slots, KERNEL_CFG) + InSlot(slots, JOB_HEADER) + InSlot(slots, DAEMON_WKMG)
  {
    hide InSlot, Present;
    PresentNil(slots, WRITE_ORDER[..0]);
    PresentNext(slots, 0);
    PresentNext(slots, 1);
    PresentNext(slots, 2);
    PresentNext(slots, 3);
    PresentNext(slots, 4);
    PresentNext(slots, 5);
    PresentNext(slots, 6);
    PresentNext(slots, 7);
    PresentNext(slots, 8);
    assert WRITE_ORDER[..9] == WRITE_ORDER;
    assert [] + InSlot(slots, KERNEL_CSA) == InSlot(slots, KERNEL_CSA);
  }

  // The record that stands first: the base record or else the end of job, and a linked one exactly when there is a linked
  // one but neither of those two.
  lemma FirstRecord(slots: Slots)
    requires RecordsWellFormed(slots) && slots != map[]
    ensures Present(slots, WRITE_ORDER) != []
    ensures var first := Present(slots, WRITE_ORDER)[0];
            && (KERNEL_CSA in slots ==> first == slots[KERNEL_CSA])
            && (KERNEL_CSA !in slots && KERNEL_EOJ in slots ==> first == slots[KERNEL_EOJ])
            && |first| >= HDR_SIZE
            && (first[4] in {2, 4, 8} <==>
                  KERNEL_CSA !in slots && KERNEL_EOJ !in slots
                  && (KERNEL_MEM in slots || KERNEL_IO in slots || KERNEL_DELAY in slots))
  {
    hide Present, WellFormed;
    OrderWritten(slots);
    forall kind | kind in slots
      ensures |slots[kind]| >= HDR_SIZE && slots[kind][4] == kind && kind in WRITE_ORDER
    {
      SlotWellFormed(slots, kind);
      WellFormedKind(slots[kind]);
      OrderComplete(kind);
    }
    assert exists kind :: kind in slots;
  }

  // As many records as slots
  lemma {:induction false} PresentCount(slots: Slots, order: seq<int>)
    requires forall i, j :: 0 <= i < j < |order| ==> order[i] != order[j]
    ensures |Present(slots, order)| == |set k | k in slots && k in order|
  {
    var taken := set k | k in slots && k in order;
    if order == [] {
      assert taken == {};
    } else {
      var rest := order[1..];
      PresentCount(slots, rest);
      assert taken == (set k | k in slots && k in rest) + if order[0] in slots then {order[0]} else {};
    }
  }

  // Record k of those taken from the slots: where it comes from.
  lemma {:induction false} PresentFrom(slots: Slots, order: seq<int>, k: nat) returns (i: nat)
    requires k < |Present(slots, order)|
    ensures i < |order| && order[i] in slots && Present(slots, order)[k] == slots[order[i]]
    ensures i >= k
    decreases order
  {
    hide Present;
    PresentNil(slots, order);
    PresentStep(slots, order);
    if order[0] in slots && k == 0 {
      i := 0;
    } else {
      i := PresentFrom(slots, order[1..], if order[0] in slots then k - 1 else k);
      i := i + 1;
    }
  }

  lemma PresentNil(slots: Slots, order: seq<int>)
    ensures order == [] ==> Present(slots, order) == []
  {
  }

  // Every occupied slot named in the order is taken.
  lemma {:induction false} PresentHas(slots: Slots, order: seq<int>, kind: int) returns (k: nat)
    requires kind in slots && kind in order
    ensures k < |Present(slots, order)| && Present(slots, order)[k] == slots[kind]
    decreases order
  {
    hide Present;
    PresentStep(slots, order);
    if kind == order[0] {
      k := 0;
    } else {
      k := PresentHas(slots, order[1..], kind);
      k := if order[0] in slots then k + 1 else k;
    }
  }

  lemma PresentWellFormed(slots: Slots, order: seq<int>)
    requires RecordsWellFormed(slots)
    ensures AllWellFormed(Present(slots, order))
  {
    hide Present, WellFormed;
    forall k | 0 <= k < |Present(slots, order)|
      ensures WellFormed(Present(slots, order)[k])
    {
      var i := PresentFrom(slots, order, k);
      SlotWellFormed(slots, order[i]);
    }
  }

  lemma SlotWellFormed(slots: Slots, kind: int)
    requires RecordsWellFormed(slots) && kind in slots
    ensures WellFormed(slots[kind]) && |slots[kind]| >= HDR_SIZE && Decode(slots[kind]).kind == kind
  {
  }

  lemma {:induction false} PresentDistinct(slots: Slots, order: seq<int>, i: nat, j: nat)
    requires RecordsWellFormed(slots)
    requires forall a, b :: 0 <= a < b < |order| ==> order[a] != order[b]
    requires i < j < |Present(slots, order)|
    ensures Present(slots, order)[i] != Present(slots, order)[j]
    decreases order
  {
    hide Present, WellFormed, Decode;
    PresentNil(slots, order);
    PresentStep(slots, order);
    var rest := order[1..];
    if order[0] in slots {
      if i == 0 {
        var b := PresentFrom(slots, rest, j - 1);
        assert rest[b] == order[b + 1];
      } else {
        PresentDistinct(slots, rest, i - 1, j - 1);
      }
    } else {
      PresentDistinct(slots, rest, i, j);
    }
  }

  // The slot of the record written last, the only one without AMORE.
  function LastSlot(slots: Slots): int {
    var recs := Present(slots, WRITE_ORDER);
    if recs == [] || |recs[|recs| - 1]| < HDR_SIZE then 0 else Decode(recs[|recs| - 1]).kind
  }

  // The slots as they come back: only AMORE may differ, and it is set on all but the last record.
  function LinkedSlots(slots: Slots): Slots {
    map kind | kind in slots :: Marked(slots[kind], kind != LastSlot(slots))
  }

  lemma OrderComplete(kind: int)
    ensures StructSize(kind) > 0 <==> kind in WRITE_ORDER
    ensures kind in WRITE_ORDER ==> SlotOf(kind) == kind
    ensures forall i, j :: 0 <= i < j < |WRITE_ORDER| ==> WRITE_ORDER[i] != WRITE_ORDER[j]
  {
  }

  // The k-th record of the chain is the slot of its own kind, marked according to its place.
  lemma ChainRecord(slots: Slots, k: nat)
    requires RecordsWellFormed(slots) && k < |Present(slots, WRITE_ORDER)|
    ensures |Present(slots, WRITE_ORDER)[k]| >= HDR_SIZE
    ensures var rec := Chain(Present(slots, WRITE_ORDER))[k];
            var kind := Decode(Present(slots, WRITE_ORDER)[k]).kind;
            |rec| >= HDR_SIZE && Decode(rec).kind == kind && SlotOf(kind) == kind
            && kind in slots && slots[kind] == Present(slots, WRITE_ORDER)[k] && rec == LinkedSlots(slots)[kind]
  {
    hide Present, Decode, WithMore, SlotOf, StructSize;
    var recs := Present(slots, WRITE_ORDER);
    PresentWellFormed(slots, WRITE_ORDER);
    var i := PresentFrom(slots, WRITE_ORDER, k);
    var kind := WRITE_ORDER[i];
    SlotWellFormed(slots, kind);
    OrderComplete(kind);
    var last := |recs| - 1;
    if k < last {
      var j := PresentFrom(slots, WRITE_ORDER, last);
      SlotWellFormed(slots, WRITE_ORDER[j]);
      PresentDistinct(slots, WRITE_ORDER, k, last);
    }
  }

  lemma ChainDistinct(slots: Slots)
    requires RecordsWellFormed(slots)
    ensures DistinctKinds(Chain(Present(slots, WRITE_ORDER)))
  {
    hide Present, Decode, SlotOf, LinkedSlots, Chain;
    var recs, chain := Present(slots, WRITE_ORDER), Chain(Present(slots, WRITE_ORDER));
    OrderComplete(0);
    forall k | 0 <= k < |chain|
      ensures |chain[k]| >= HDR_SIZE
    {
      ChainRecord(slots, k);
    }
    forall i, j | 0 <= i < j < |chain|
      ensures SlotOf(Decode(chain[i]).kind) != SlotOf(Decode(chain[j]).kind)
    {
      ChainRecord(slots, i);
      ChainRecord(slots, j);
      PresentDistinct(slots, WRITE_ORDER, i, j);
    }
  }

  lemma SlotsComeBack(slots: Slots)
    requires RecordsWellFormed(slots)
    ensures AllHaveHeaders(Chain(Present(slots, WRITE_ORDER)))
    ensures SlotsOf(Chain(Present(slots, WRITE_ORDER))) == LinkedSlots(slots)
  {
    hide Present, Decode, SlotOf, Chain, Marked, SlotsOf, WellFormed;
    var recs, chain := Present(slots, WRITE_ORDER), Chain(Present(slots, WRITE_ORDER));
    ChainDistinct(slots);
    forall kind | kind in slots
      ensures kind in SlotsOf(chain) && SlotsOf(chain)[kind] == LinkedSlots(slots)[kind]
    {
      WellFormedKind(slots[kind]);
      OrderComplete(kind);
      var k := PresentHas(slots, WRITE_ORDER, kind);
      ChainRecord(slots, k);
      SlotHolds(chain, k);
    }
    forall kind | kind in SlotsOf(chain)
      ensures kind in slots
    {
      var k := SlotFrom(chain, kind);
      ChainRecord(slots, k);
    }
  }

  predicate AllHaveHeaders(recs: seq<seq<byte>>) {
    forall r :: r in recs ==> |r| >= HDR_SIZE
  }

  lemma WellFormedKind(rec: seq<byte>)
    requires WellFormed(rec)
    ensures |rec| >= HDR_SIZE && StructSize(Decode(rec).kind) > 0
  {
  }

  // ---- Chains that do not fit ----

  // With too little room for a record the reader takes what fits, or nothing.
  lemma ReadCut(f: seq<byte>, p: nat, rec: seq<byte>, more: bool, room: nat)
    requires WellFormed(rec) && room < |rec|
    requires p + |rec| <= |f| && f[p..p + |rec|] == Marked(rec, more)
    ensures var r := ReadRecord(f, p, room);
            && (room < HDR_SIZE ==> r == BadHeader)
            && (room >= HDR_SIZE ==> r == Record(f[p..p + room], room) && Decode(f[p..p + room]) == Decode(Marked(rec, more)))
  {
    hide ConvertPacct, RevTab, StructSize;
    assert f[p..p + HDR_SIZE] == Marked(rec, more)[..HDR_SIZE];
    if room >= HDR_SIZE {
      assert f[p..p + room][..HDR_SIZE] == f[p..p + HDR_SIZE];
    }
  }

  // The read fails, or its last record is shorter than the one of that type that was written.
  ghost predicate Lost(r: EntResult, last: seq<byte>) {
    || r.Failed?
    || (r.Entry? && r.recs != []
        && var got := r.recs[|r.recs| - 1];
           HDR_SIZE <= |got| < |last| && Decode(got).kind == Decode(last).kind)
  }

  lemma LostBehind(head: seq<byte>, r: EntResult, last: seq<byte>)
    requires Lost(r, last)
    ensures match r
            case Entry(rest, next) => Lost(Entry([head] + rest, next), last)
            case other => Lost(r, last)
  {
    hide Decode;
  }

  // A chain that is longer than the buffer never reads back: the read fails, or its last record comes out short.
  lemma {:induction false} ReadTooLong(f: seq<byte>, p: nat, recs: seq<seq<byte>>, nbytes: nat)
    requires recs != [] && AllWellFormed(recs)
    requires nbytes <= ACCTENTSIZ < nbytes + |Flat(Chain(recs))|
    requires p + |Flat(Chain(recs))| <= |f| && f[p..p + |Flat(Chain(recs))|] == Flat(Chain(recs))
    ensures Lost(ReadEntry(f, p, nbytes), recs[|recs| - 1])
    decreases |recs|
  {
    hide ReadEntry, WellFormed, Decode, Marked, Flat, Chain, Lost;
    var all := Flat(Chain(recs));
    var head := Marked(recs[0], |recs| > 1);
    var n := |head|;
    ChainStep(recs);
    SliceOfSlice(f, p, |all|, 0, n);
    SliceOfSlice(f, p, |all|, n, |all| - n);
    if n <= ACCTENTSIZ - nbytes {
      FirstOfChain(f, p, recs[0], |recs| > 1, nbytes);
      if |recs| > 1 {
        ReadTooLong(f, p + n, recs[1..], nbytes + n);
        assert recs[1..][|recs[1..]| - 1] == recs[|recs| - 1];
        LostBehind(head, ReadEntry(f, p + n, nbytes + n), recs[|recs| - 1]);
      }
    } else {
      CutEntry(f, p, recs[0], |recs| > 1, nbytes, recs[|recs| - 1]);
    }
  }

  // A record that fits is the first one of its entry; without AMORE it is the only one.
  lemma FirstOfChain(f: seq<byte>, p: nat, rec: seq<byte>, more: bool, nbytes: nat)
    requires WellFormed(rec) && nbytes + |rec| <= ACCTENTSIZ
    requires p + |rec| <= |f| && f[p..p + |rec|] == Marked(rec, more)
    ensures ReadEntry(f, p, nbytes)
            == if !more then Entry([Marked(rec, more)], p + |rec|)
               else match ReadEntry(f, p + |rec|, nbytes + |rec|)
                    case Entry(rest, next) => Entry([Marked(rec, more)] + rest, next)
                    case other => other
    ensures Decode(Marked(rec, more)).kind == Decode(rec).kind
  {
    hide ReadRecord, WellFormed, Decode, PacctType, Marked;
    MarkedKind(rec, more);
    MarkedAlike(rec, more);
    ReadMarked(f, p, rec, more, ACCTENTSIZ - nbytes);
  }

  // A record for which the room is too small ends the read: with a failure, or cut.
  lemma CutEntry(f: seq<byte>, p: nat, rec: seq<byte>, more: bool, nbytes: nat, last: seq<byte>)
    requires WellFormed(rec) && nbytes <= ACCTENTSIZ < nbytes + |rec|
    requires p + |rec| <= |f| && f[p..p + |rec|] == Marked(rec, more)
    requires !more ==> last == rec
    ensures Lost(ReadEntry(f, p, nbytes), last)
  {
    hide ReadRecord, WellFormed, Decode, PacctType, Marked;
    var room := ACCTENTSIZ - nbytes;
    MarkedKind(rec, more);
    MarkedAlike(rec, more);
    ReadCut(f, p, rec, more, room);
    if room >= HDR_SIZE && more {
      NoRoomLeft(f, p + room);
    }
  }

  lemma NoRoomLeft(f: seq<byte>, p: nat)
    requires p <= |f|
    ensures ReadEntry(f, p, ACCTENTSIZ) == Failed(-1)
  {
  }

  lemma MarkedAlike(rec: seq<byte>, more: bool)
    requires WellFormed(rec)
    ensures |rec| >= HDR_SIZE && Decode(Marked(rec, more)).kind == Decode(rec).kind
  {
  }

  // ---- Whole files ----

  // An entry somebody may write: at least one record, each in the slot of its type
  predicate Writable(slots: Slots) {
    slots != map[] && RecordsWellFormed(slots)
  }

  // The readers' buffer holds the entry.
  predicate FitsBuffer(slots: Slots) {
    |EntryBytes(slots)| <= ACCTENTSIZ
  }

  function FileBytes(ents: seq<Slots>): seq<byte> {
    if ents == [] then [] else EntryBytes(ents[0]) + FileBytes(ents[1..])
  }

  // All entries from p on, as a reader sees their slots, and how the last read ended.
  function ReadAll(f: seq<byte>, p: nat): (r: (seq<Slots>, EntResult))
    requires p <= |f|
    decreases |f| - p
  {
    match ReadEntry(f, p, 0)
    case Entry(recs, next) =>
      var rest := ReadAll(f, next);
      ([SlotsOf(recs)] + rest.0, rest.1)
    case other => ([], other)
  }

  lemma NonEmptySet(s: set<int>)
    ensures s == {} || exists x :: x in s
  {
    if forall x :: x !in s {
      assert s == {};
    }
  }

  lemma NoSlots(slots: Slots)
    ensures slots == map[] || exists kind :: kind in slots
  {
    NonEmptySet(slots.Keys);
  }

  lemma WritablePresent(slots: Slots)
    requires Writable(slots)
    ensures Present(slots, WRITE_ORDER) != [] && AllWellFormed(Present(slots, WRITE_ORDER))
  {
    hide Present, WellFormed, Decode;
    PresentWellFormed(slots, WRITE_ORDER);
    NoSlots(slots);
    if kind :| kind in slots {
      SlotWellFormed(slots, kind);
      WellFormedKind(slots[kind]);
      OrderComplete(kind);
      var k := PresentHas(slots, WRITE_ORDER, kind);
    }
  }

  // An entry reads back whole, wherever it stands, exactly when it fits the readers' buffer.
  lemma EntryRoundTrip(f: seq<byte>, p: nat, slots: Slots)
    requires Writable(slots)
    requires p + |EntryBytes(slots)| <= |f| && f[p..p + |EntryBytes(slots)|] == EntryBytes(slots)
    ensures ReadEntry(f, p, 0) == Entry(Chain(Present(slots, WRITE_ORDER)), p + |EntryBytes(slots)|) <==> FitsBuffer(slots)
  {
    hide Present, WellFormed, Decode, ReadEntry, Chain, Flat;
    WritablePresent(slots);
    var recs := Present(slots, WRITE_ORDER);
    if FitsBuffer(slots) {
      ReadChain(f, p, recs, 0);
    } else {
      ReadTooLong(f, p, recs, 0);
      LastOfChain(recs);
    }
  }

  lemma LastOfChain(recs: seq<seq<byte>>)
    requires recs != []
    ensures Chain(recs) != [] && |Chain(recs)[|Chain(recs)| - 1]| == |recs[|recs| - 1]|
  {
    hide Marked;
  }

  function LinkedAll(ents: seq<Slots>): seq<Slots> {
    if ents == [] then [] else [LinkedSlots(ents[0])] + LinkedAll(ents[1..])
  }

  // An entry that does not fit does not come back slot for slot.
  lemma TooLongIsLost(f: seq<byte>, p: nat, slots: Slots)
    requires Writable(slots) && !FitsBuffer(slots)
    requires p + |EntryBytes(slots)| <= |f| && f[p..p + |EntryBytes(slots)|] == EntryBytes(slots)
    ensures var r := ReadEntry(f, p, 0); r.Failed? || (r.Entry? && SlotsOf(r.recs) != LinkedSlots(slots))
  {
    hide Present, WellFormed, Decode, ReadEntry, Chain, Flat, SlotOf, LinkedSlots;
    WritablePresent(slots);
    var recs := Present(slots, WRITE_ORDER);
    ReadTooLong(f, p, recs, 0);
    var r := ReadEntry(f, p, 0);
    if r.Entry? {
      ChainRecord(slots, |recs| - 1);
      LinkedSize(slots, Decode(recs[|recs| - 1]).kind);
    }
  }

  lemma LinkedSize(slots: Slots, kind: int)
    requires kind in slots
    ensures kind in LinkedSlots(slots) && |LinkedSlots(slots)[kind]| == |slots[kind]|
  {
  }

  // The first entry of a file and what follows it
  lemma Rest(f: seq<byte>, p: nat, ents: seq<Slots>)
    requires ents != [] && p <= |f| && f[p..] == FileBytes(ents)
    ensures var n := |EntryBytes(ents[0])|;
            p + n <= |f| && f[p..p + n] == EntryBytes(ents[0]) && f[p + n..] == FileBytes(ents[1..])
  {
    hide EntryBytes;
    var n := |EntryBytes(ents[0])|;
    assert f[p..p + n] == f[p..][..n];
    assert f[p + n..] == f[p..][n..];
  }

  // Writing any entries and reading the file forward gives the same entries, slot for slot, and then the end of file,
  // exactly when every one of them fits the readers' buffer.
  lemma {:induction false} FileRoundTrip(f: seq<byte>, p: nat, ents: seq<Slots>)
    requires forall i :: 0 <= i < |ents| ==> Writable(ents[i])
    requires p <= |f| && f[p..] == FileBytes(ents)
    ensures ReadAll(f, p) == (LinkedAll(ents), AtEnd) <==> forall i :: 0 <= i < |ents| ==> FitsBuffer(ents[i])
    decreases |ents|
  {
    hide EntryBytes, Present, Writable, LinkedSlots, SlotsOf, ReadEntry, Chain, FitsBuffer, FileBytes;
    if ents != [] {
      var n := |EntryBytes(ents[0])|;
      Rest(f, p, ents);
      if FitsBuffer(ents[0]) {
        EntryRoundTrip(f, p, ents[0]);
        WritableRecords(ents[0]);
        SlotsComeBack(ents[0]);
        FileRoundTrip(f, p + n, ents[1..]);
        AllFitStep(ents);
        LinkedAllStep(ents);
      } else {
        TooLongIsLost(f, p, ents[0]);
        LinkedAllStep(ents);
      }
    } else {
      NothingToRead(f, p);
    }
  }

  lemma AllFitStep(ents: seq<Slots>)
    requires ents != [] && FitsBuffer(ents[0])
    ensures (forall i :: 0 <= i < |ents| ==> FitsBuffer(ents[i]))
       <==> forall i :: 0 <= i < |ents[1..]| ==> FitsBuffer(ents[1..][i])
  {
    hide FitsBuffer;
    assert forall i :: 0 < i < |ents| ==> ents[i] == ents[1..][i - 1];
  }

  lemma LinkedAllStep(ents: seq<Slots>)
    requires ents != []
    ensures LinkedAll(ents) == [LinkedSlots(ents[0])] + LinkedAll(ents[1..])
    ensures LinkedAll(ents)[0] == LinkedSlots(ents[0]) && LinkedAll(ents)[1..] == LinkedAll(ents[1..])
  {
    hide LinkedSlots;
  }

  lemma NothingToRead(f: seq<byte>, p: nat)
    requires p <= |f| && f[p..] == FileBytes([])
    ensures ReadEntry(f, p, 0) == AtEnd
  {
  }

  lemma WritableRecords(slots: Slots)
    requires Writable(slots)
    ensures RecordsWellFormed(slots)
  {
  }

  // ---- An entry that is too long ----

  function Blank(kind: int): (r: seq<byte>)
    requires StructSize(kind) >= HDR_SIZE
    ensures |r| == StructSize(kind)
  {
    Encode(Achead(ACCT_MAGIC, RevTab(kind), kind, 0, StructSize(kind))) + Zeros(StructSize(kind) - HDR_SIZE)
  }

  lemma BlankWellFormed(kind: int)
    requires StructSize(kind) >= HDR_SIZE
    ensures WellFormed(Blank(kind)) && Decode(Blank(kind)).kind == kind
  {
    var r := Blank(kind);
    assert r[..HDR_SIZE] == Encode(Achead(ACCT_MAGIC, RevTab(kind), kind, 0, StructSize(kind)));
    assert Decode(r) == Decode(r[..HDR_SIZE]);
  }

  // A configuration record and a workload management record in one entry take 424 bytes: writeacctent writes them, and
  // readacctent does not give them back.
  lemma TooLongEntry()
    ensures var slots := map[KERNEL_CFG := Blank(KERNEL_CFG), DAEMON_WKMG := Blank(DAEMON_WKMG)];
            && Writable(slots) && |EntryBytes(slots)| == SIZE_CFG + SIZE_WKMG
            && ReadAll(EntryBytes(slots), 0) != ([LinkedSlots(slots)], AtEnd)
  {
    hide WellFormed, Decode, Blank, ReadAll, LinkedSlots, Marked;
    var slots := map[KERNEL_CFG := Blank(KERNEL_CFG), DAEMON_WKMG := Blank(DAEMON_WKMG)];
    BlankWellFormed(KERNEL_CFG);
    BlankWellFormed(DAEMON_WKMG);
    TwoPresent(slots);
    var recs := [Blank(KERNEL_CFG), Blank(DAEMON_WKMG)];
    ChainStep(recs);
    ChainStep(recs[1..]);
    var f := EntryBytes(slots);
    assert f[0..] == f && FileBytes([slots]) == f + FileBytes([]) == f;
    FileRoundTrip(f, 0, [slots]);
    assert !FitsBuffer([slots][0]);
    LinkedAllStep([slots]);
    assert LinkedAll([slots]) == [LinkedSlots(slots)];
  }

  // Slots that are empty are passed over.
  lemma {:induction false} PresentSkip(slots: Slots, order: seq<int>, n: nat)
    requires n <= |order| && forall i :: 0 <= i < n ==> order[i] !in slots
    ensures Present(slots, order) == Present(slots, order[n..])
    decreases n
  {
    hide Present;
    if n > 0 {
      PresentSkip(slots, order, n - 1);
      PresentStep(slots, order[n - 1..]);
      assert order[n - 1..][1..] == order[n..];
    } else {
      assert order[0..] == order;
    }
  }

  lemma WkmgPresent(slots: Slots)
    requires slots.Keys == {DAEMON_WKMG}
    ensures Present(slots, WRITE_ORDER) == [slots[DAEMON_WKMG]]
  {
    hide Present;
    PresentSkip(slots, WRITE_ORDER, 8);
    PresentStep(slots, WRITE_ORDER[8..]);
    PresentNil(slots, WRITE_ORDER[8..][1..]);
  }

  lemma TwoPresent(slots: Slots)
    requires slots.Keys == {KERNEL_CFG, DAEMON_WKMG}
    ensures Present(slots, WRITE_ORDER) == [slots[KERNEL_CFG], slots[DAEMON_WKMG]]
  {
    hide Present;
    PresentSkip(slots, WRITE_ORDER, 6);
    PresentStep(slots, WRITE_ORDER[6..]);
    PresentSkip(slots, WRITE_ORDER[6..][1..], 1);
    PresentStep(slots, WRITE_ORDER[6..][1..][1..]);
    PresentNil(slots, WRITE_ORDER[6..][1..][1..][1..]);
  }
}
