// writepacct and writeacctent over records in memory: each record is written one step late, so that AMORE can be set
// right, and the flags in memory are put back.

module AcctOutput {
  import opened Basics
  import opened AcctHeader
  import opened AcctFile
  import opened AcctWriter

  // struct acctent as a writer sees it: a buffer for each slot it may write, or null
  class Acctent {
    var csa: array?<byte>
    var eoj: array?<byte>
    var mem: array?<byte>
    var io: array?<byte>
    var delay: array?<byte>
    var soj: array?<byte>
    var cfg: array?<byte>
    var job: array?<byte>
    var wmbs: array?<byte>

    // The buffers in the order they are written
    ghost function InOrder(): seq<array?<byte>>
      reads this
    {
      [csa, eoj, mem, io, delay, soj, cfg, job, wmbs]
    }
  }

  // What a slot holds
  datatype Slot = Empty | Full(rec: seq<byte>)

  // The occupied slots, in order.
  function Taken(vals: seq<Slot>): (r: seq<seq<byte>>) {
    if vals == [] then []
    else
      var last := vals[|vals| - 1];
      Taken(vals[..|vals| - 1]) + if last.Empty? then [] else [last.rec]
  }

  ghost predicate Holds(ent: Acctent, vals: seq<Slot>)
    reads ent, ent.InOrder()
  {
    && |vals| == 9
    && forall k :: 0 <= k < 9 ==>
         var buf := ent.InOrder()[k];
         if buf == null then vals[k] == Empty else vals[k] == Full(buf[..]) && WellFormed(buf[..])
  }

  // All but the last record of a list, each announcing another.
  function AllButLast(recs: seq<seq<byte>>): seq<byte> {
    if |recs| <= 1 then [] else AllButLast(recs[..|recs| - 1]) + Marked(recs[|recs| - 2], true)
  }

  lemma {:induction false} FlatAppend(a: seq<seq<byte>>, x: seq<byte>)
    ensures Flat(a + [x]) == Flat(a) + x
  {
    if a == [] {
      assert a + [x] == [x];
      assert Flat([x]) == x + Flat([x][1..]) == x;
    } else {
      assert (a + [x])[0] == a[0] && (a + [x])[1..] == a[1..] + [x];
      FlatAppend(a[1..], x);
    }
  }

  function MarkAll(recs: seq<seq<byte>>): (r: seq<seq<byte>>)
    ensures |r| == |recs|
    ensures forall k :: 0 <= k < |recs| ==> r[k] == Marked(recs[k], true)
  {
    seq(|recs|, k requires 0 <= k < |recs| => Marked(recs[k], true))
  }

  lemma {:induction false} AllButLastFlat(recs: seq<seq<byte>>)
    requires recs != []
    ensures AllButLast(recs) == Flat(MarkAll(recs[..|recs| - 1]))
  {
    if |recs| > 1 {
      var before := recs[..|recs| - 1];
      AllButLastFlat(before);
      FlatAppend(MarkAll(before[..|before| - 1]), Marked(recs[|recs| - 2], true));
      assert MarkAll(before[..|before| - 1]) + [Marked(recs[|recs| - 2], true)] == MarkAll(before);
    }
  }

  lemma {:induction false} ChainIsMarked(recs: seq<seq<byte>>, last: seq<byte>)
    ensures Chain(recs + [last]) == MarkAll(recs) + [Marked(last, false)]
  {
    hide Marked;
    assert |Chain(recs + [last])| == |MarkAll(recs) + [Marked(last, false)]|;
  }

  // Writing the last record without AMORE completes the chain.
  lemma ChainComplete(recs: seq<seq<byte>>)
    requires recs != []
    ensures AllButLast(recs) + Marked(recs[|recs| - 1], false) == Flat(Chain(recs))
  {
    hide Marked, Chain, Flat, MarkAll, AllButLast;
    AllButLastFlat(recs);
    FlatOfChain(recs[..|recs| - 1], recs[|recs| - 1]);
    assert recs[..|recs| - 1] + [recs[|recs| - 1]] == recs;
  }

  lemma FlatOfChain(before: seq<seq<byte>>, last: seq<byte>)
    ensures Flat(Chain(before + [last])) == Flat(MarkAll(before)) + Marked(last, false)
  {
    hide Marked, Chain, Flat, MarkAll;
    ChainIsMarked(before, last);
    FlatAppend(MarkAll(before), Marked(last, false));
  }

  // writepacct
  method WritePacct(file: AcctFile, rec: array<byte>, more: bool)
    requires WellFormed(rec[..]) && file.pos == |file.data|
    modifies file, rec
    ensures file.pos == |file.data| && file.data == old(file.data) + Marked(old(rec[..]), more)
    ensures rec[..] == old(rec[..])
  {
    var flags := rec[5];
    ghost var before := rec[..];
    rec[5] := WithMore(flags, more);
    assert rec[..] == before[5 := WithMore(flags, more)];
    file.WriteAcct(rec[..]);
    rec[5] := flags;
    assert rec[..] == before;
  }

  // The queued state of writeacctent: everything taken so far is written except the last record, which is prev.
  ghost predicate Queued(file: AcctFile, base: seq<byte>, taken: seq<seq<byte>>, prev: array?<byte>, nrec: nat)
    reads file, prev
  {
    && file.pos == |file.data| && file.data == base + AllButLast(taken)
    && nrec == |taken|
    && (prev == null <==> taken == [])
    && (prev != null ==> prev[..] == taken[|taken| - 1])
  }

  // Q_WRITE(REC, 1)
  method QueueRecord(file: AcctFile, prev: array?<byte>, rec: array?<byte>, nrec: nat,
                     ghost base: seq<byte>, ghost taken: seq<seq<byte>>)
    returns (queued: array?<byte>, count: nat)
    requires Queued(file, base, taken, prev, nrec)
    requires prev != null ==> WellFormed(prev[..])
    modifies file, prev
    ensures prev != null ==> prev[..] == old(prev[..])
    ensures queued == (if rec == null then prev else rec)
    ensures Queued(file, base, if rec == null then taken else taken + [rec[..]], queued, count)
  {
    hide AllButLast, WellFormed, Marked;
    queued, count := prev, nrec;
    if rec != null {
      ghost var image := rec[..];
      if prev != null {
        WritePacct(file, prev, true);
        assert rec[..] == image;
        NextQueued(base, taken, image);
      } else {
        FirstQueued(taken, image);
      }
      count := count + 1;
      queued := rec;
    }
  }

  lemma Grouped(a: seq<byte>, b: seq<byte>, c: seq<byte>)
    ensures a + (b + c) == (a + b) + c
  {
  }

  lemma AllButLastStep(taken: seq<seq<byte>>, rec: seq<byte>)
    requires taken != []
    ensures AllButLast(taken + [rec]) == AllButLast(taken) + Marked(taken[|taken| - 1], true)
  {
    hide Marked, AllButLast;
    var all := taken + [rec];
    assert all[..|taken|] == taken && all[|all| - 2] == taken[|taken| - 1];
    AllButLastDefined(all);
  }

  lemma AllButLastDefined(recs: seq<seq<byte>>)
    requires |recs| > 1
    ensures AllButLast(recs) == AllButLast(recs[..|recs| - 1]) + Marked(recs[|recs| - 2], true)
  {
    hide Marked;
  }

  lemma NextQueued(base: seq<byte>, taken: seq<seq<byte>>, rec: seq<byte>)
    requires taken != []
    ensures base + AllButLast(taken) + Marked(taken[|taken| - 1], true) == base + AllButLast(taken + [rec])
  {
    hide Marked, AllButLast;
    AllButLastStep(taken, rec);
    Grouped(base, AllButLast(taken), Marked(taken[|taken| - 1], true));
  }

  lemma FirstQueued(taken: seq<seq<byte>>, rec: seq<byte>)
    requires taken == []
    ensures AllButLast(taken) == AllButLast(taken + [rec])
  {
  }

  ghost predicate Writing(file: AcctFile, ent: Acctent, vals: seq<Slot>, i: nat, base: seq<byte>,
                          prev: array?<byte>, nrec: nat)
    reads file, ent, ent.InOrder(), prev
  {
    && i <= 9 && Holds(ent, vals)
    && (prev == null || prev in ent.InOrder())
    && Queued(file, base, Taken(vals[..i]), prev, nrec)
  }

  // Q_WRITE(acctrec->slot, 1) for the i-th slot
  method TakeSlot(file: AcctFile, ent: Acctent, ghost vals: seq<Slot>, ghost i: nat, rec: array?<byte>,
                  prev: array?<byte>, nrec: nat, ghost base: seq<byte>)
    returns (queued: array?<byte>, count: nat)
    requires i < 9 && rec == ent.InOrder()[i]
    requires Writing(file, ent, vals, i, base, prev, nrec)
    modifies file, prev
    ensures Writing(file, ent, vals, i + 1, base, queued, count)
    ensures queued == null || queued in ent.InOrder()
  {
    hide WellFormed, Queued, Taken;
    TakenNext(vals, i);
    assert rec in ent.InOrder();
    queued, count := QueueRecord(file, prev, rec, nrec, base, Taken(vals[..i]));
  }

  lemma TakenNext(vals: seq<Slot>, i: nat)
    requires i < |vals|
    ensures Taken(vals[..i + 1]) == if vals[i].Empty? then Taken(vals[..i]) else Taken(vals[..i]) + [vals[i].rec]
  {
    assert vals[..i + 1][..i] == vals[..i];
  }

  lemma WritingStarts(file: AcctFile, ent: Acctent, vals: seq<Slot>)
    requires file.pos == |file.data| && Holds(ent, vals)
    ensures Writing(file, ent, vals, 0, file.data, null, 0)
  {
    assert vals[..0] == [];
    assert file.data + [] == file.data;
  }

  lemma WritingEnds(file: AcctFile, ent: Acctent, vals: seq<Slot>, base: seq<byte>, prev: array?<byte>, nrec: nat)
    requires Writing(file, ent, vals, 9, base, prev, nrec)
    ensures Queued(file, base, Taken(vals), prev, nrec) && Holds(ent, vals)
    ensures prev != null ==> prev in ent.InOrder() && WellFormed(prev[..])
  {
    assert vals[..9] == vals;
  }

  // Q_WRITE(prev, 0)
  method FlushLast(file: AcctFile, ent: Acctent, ghost vals: seq<Slot>, prev: array?<byte>, nrec: nat,
                   ghost base: seq<byte>)
    returns (count: nat)
    requires Writing(file, ent, vals, 9, base, prev, nrec)
    modifies file, prev
    ensures file.pos == |file.data| && Holds(ent, vals)
    ensures file.data == base + Flat(Chain(Taken(vals)))
    ensures count == (if Taken(vals) == [] then 0 else |Taken(vals)| + 1)
  {
    hide WellFormed, Taken, Chain, Flat, Writing, AllButLast;
    WritingEnds(file, ent, vals, base, prev, nrec);
    EmptyEntry();
    count := nrec;
    if prev != null {
      ChainComplete(Taken(vals));
      WritePacct(file, prev, false);
      assert file.data == base + Flat(Chain(Taken(vals)));
      count := count + 1;
    }
  }

  // A buffer in a slot of this record type
  ghost predicate Fills(buf: array?<byte>, slots: Slots, kind: int)
    reads buf
  {
    if buf == null then kind !in slots else kind in slots && slots[kind] == buf[..]
  }

  // The slots of a process: the base record and those linked to it
  ghost predicate ProcessSlots(ent: Acctent, slots: Slots)
    reads ent, ent.csa, ent.mem, ent.io, ent.delay
  {
    && Fills(ent.csa, slots, KERNEL_CSA) && Fills(ent.mem, slots, KERNEL_MEM)
    && Fills(ent.io, slots, KERNEL_IO) && Fills(ent.delay, slots, KERNEL_DELAY)
  }

  ghost predicate OtherSlots(ent: Acctent, slots: Slots)
    reads ent, ent.soj, ent.eoj, ent.cfg, ent.job, ent.wmbs
  {
    && Fills(ent.soj, slots, KERNEL_SOJ) && Fills(ent.eoj, slots, KERNEL_EOJ) && Fills(ent.cfg, slots, KERNEL_CFG)
    && Fills(ent.job, slots, JOB_HEADER) && Fills(ent.wmbs, slots, DAEMON_WKMG)
  }

  // The slots of an entry by record type, each in the field of its name
  ghost predicate Represents(ent: Acctent, slots: Slots)
    reads ent, ent.csa, ent.mem, ent.io, ent.delay, ent.soj, ent.eoj, ent.cfg, ent.job, ent.wmbs
  {
    ProcessSlots(ent, slots) && OtherSlots(ent, slots)
  }

  // The slots in the order of the fields
  function SlotSeq(slots: Slots): (r: seq<Slot>)
    ensures |r| == 9
  {
    seq(9, k requires 0 <= k < 9 => if WRITE_ORDER[k] in slots then Full(slots[WRITE_ORDER[k]]) else Empty)
  }

  lemma FieldsInOrder(ent: Acctent, slots: Slots)
    requires RecordsWellFormed(slots)
    ensures Represents(ent, slots) <==> Holds(ent, SlotSeq(slots))
  {
    hide WellFormed, Decode;
    var vals := SlotSeq(slots);
    assert ent.InOrder()[0] == ent.csa && ent.InOrder()[1] == ent.eoj && ent.InOrder()[2] == ent.mem;
    assert ent.InOrder()[3] == ent.io && ent.InOrder()[4] == ent.delay && ent.InOrder()[5] == ent.soj;
    assert ent.InOrder()[6] == ent.cfg && ent.InOrder()[7] == ent.job && ent.InOrder()[8] == ent.wmbs;
    assert forall k :: 0 <= k < 9 ==> WRITE_ORDER[k] in slots ==> WellFormed(slots[WRITE_ORDER[k]]);
  }

  lemma {:induction false} TakenIsPresent(slots: Slots, n: nat)
    requires n <= |WRITE_ORDER|
    ensures Taken(SlotSeq(slots)[..n]) == Present(slots, WRITE_ORDER[..n])
  {
    hide Present, Taken;
    var vals := SlotSeq(slots);
    if n > 0 {
      TakenIsPresent(slots, n - 1);
      TakenNext(vals, n - 1);
      PresentNext(slots, n - 1);
    } else {
      PresentNil(slots, WRITE_ORDER[..0]);
      NothingTaken(vals[..0]);
    }
  }

  lemma NothingTaken(vals: seq<Slot>)
    requires vals == []
    ensures Taken(vals) == []
  {
  }

  // What the fields hold, in order, chained, are the bytes of the entry, so FileRoundTrip speaks of the files written; and
  // there is one record for each slot.
  lemma WritesEntryBytes(slots: Slots)
    requires RecordsWellFormed(slots)
    ensures Flat(Chain(Taken(SlotSeq(slots)))) == EntryBytes(slots)
    ensures |Taken(SlotSeq(slots))| == |slots| && (Taken(SlotSeq(slots)) == [] <==> slots == map[])
  {
    hide WellFormed, Present, Taken, SlotSeq;
    TakenIsPresent(slots, |WRITE_ORDER|);
    assert SlotSeq(slots)[..9] == SlotSeq(slots) && WRITE_ORDER[..9] == WRITE_ORDER;
    OrderComplete(0);
    PresentCount(slots, WRITE_ORDER);
    forall kind | kind in slots
      ensures kind in WRITE_ORDER
    {
      SlotWellFormed(slots, kind);
      WellFormedKind(slots[kind]);
      OrderComplete(kind);
    }
    assert (set k | k in slots && k in WRITE_ORDER) == slots.Keys;
  }

  // writeacctent. The count is one too high for a non-empty entry: the closing Q_WRITE counts the last record again.
  method WriteAcctEnt(file: AcctFile, ent: Acctent, ghost slots: Slots) returns (nrec: nat)
    requires file.pos == |file.data|
    requires Represents(ent, slots) && RecordsWellFormed(slots)
    modifies file, ent.InOrder()
    ensures file.pos == |file.data|
    ensures file.data == old(file.data) + EntryBytes(slots)
    ensures nrec == (if slots == map[] then 0 else |slots| + 1)
    ensures Represents(ent, slots)
  {
    hide WellFormed, Taken, Chain, Writing, Flat, Holds, Queued, SlotSeq, EntryBytes, Represents, RecordsWellFormed;
    ghost var base, vals := file.data, SlotSeq(slots);
    var prev: array?<byte> := null;
    FieldsInOrder(ent, slots);
    WritesEntryBytes(slots);
    WritingStarts(file, ent, vals);
    prev, nrec := TakeSlot(file, ent, vals, 0, ent.csa, prev, 0, base);
    prev, nrec := TakeSlot(file, ent, vals, 1, ent.eoj, prev, nrec, base);
    prev, nrec := TakeSlot(file, ent, vals, 2, ent.mem, prev, nrec, base);
    prev, nrec := TakeSlot(file, ent, vals, 3, ent.io, prev, nrec, base);
    prev, nrec := TakeSlot(file, ent, vals, 4, ent.delay, prev, nrec, base);
    prev, nrec := TakeSlot(file, ent, vals, 5, ent.soj, prev, nrec, base);
    prev, nrec := TakeSlot(file, ent, vals, 6, ent.cfg, prev, nrec, base);
    prev, nrec := TakeSlot(file, ent, vals, 7, ent.job, prev, nrec, base);
    prev, nrec := TakeSlot(file, ent, vals, 8, ent.wmbs, prev, nrec, base);
    nrec := FlushLast(file, ent, vals, prev, nrec, base);
    FieldsInOrder(ent, slots);
  }

  lemma EmptyEntry()
    ensures AllButLast([]) == [] && Flat(Chain([])) == []
  {
  }
}
