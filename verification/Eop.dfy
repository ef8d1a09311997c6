// End-of-process entries (csa/csad/csa.c, csa_acct_eop and csa_modify_buf): one buffer of records, written whole to the
// job's file and, with its headers edited in place, in part to the system file.

module Eop {
  import opened Basics
  import opened AcctHeader
  import opened AcctReader
  import opened AcctWriter

  // What a process leaves behind: the record bodies that csa_acct_eop fills in, and the values it decides by
  datatype Task = Task(flags: byte, csaBody: seq<byte>, memBody: seq<byte>, ioBody: seq<byte>, delayBody: seq<byte>,
                       coreHimem: nat, virtHimem: nat, utime: nat, stime: nat)

  const BODY_CSA: nat := SIZE_CSA - 2 * HDR_SIZE

  ghost predicate ValidTask(t: Task) {
    && |t.csaBody| == BODY_CSA && |t.memBody| == SIZE_MEM - HDR_SIZE
    && |t.ioBody| == SIZE_IO - HDR_SIZE && |t.delayBody| == SIZE_DELAY - HDR_SIZE
    && t.flags < AMORE                        // AFORK, ASU, ACORE and AXSIG lie below AMORE
  }

  // Which linked records an entry has
  datatype Links = Links(mem: bool, io: bool, delay: bool)

  const ALL_LINKS: Links := Links(true, true, true)

  // ---- The bytes of an entry ----

  // Marker and size fields of the second header
  function SecondType(links: Links): int {
    KERNEL_CSA + (if links.io then 2 else 0) + (if links.delay then 4 else 0)   // the memory bit is that of KERNEL_CSA
  }

  function SecondSize(links: Links): nat {
    (if links.mem then SIZE_MEM else 0) + (if links.io then SIZE_IO else 0) + (if links.delay then SIZE_DELAY else 0)
  }

  function Head(kind: int, flag: byte): (b: seq<byte>)
    requires StructSize(kind) > 0
    ensures |b| == HDR_SIZE && Decode(b) == Achead(ACCT_MAGIC, RevTab(kind), kind, flag, StructSize(kind))
  {
    Encode(Achead(ACCT_MAGIC, RevTab(kind), kind, flag, StructSize(kind)))
  }

  // A record with one header
  function Rec(kind: int, flag: byte, body: seq<byte>): seq<byte>
    requires StructSize(kind) > 0
  {
    Head(kind, flag) + body
  }

  // The base record, whose second header describes the linked ones
  function BaseRec(flag: byte, type2: int, size2: int, body: seq<byte>): seq<byte>
    requires 0 <= type2 < 256 && 0 <= size2 < 0x1_0000
  {
    Head(KERNEL_CSA, flag) + Encode(Achead(0xFFFF - ACCT_MAGIC, RevTab(KERNEL_CSA), type2, 0, size2)) + body
  }

  // The records of an entry with these links, before AMORE is set
  function Records(t: Task, links: Links): seq<seq<byte>> {
    [BaseRec(t.flags, SecondType(links), SecondSize(links), t.csaBody)]
    + (if links.mem then [Rec(KERNEL_MEM, 0, t.memBody)] else [])
    + (if links.io then [Rec(KERNEL_IO, 0, t.ioBody)] else [])
    + (if links.delay then [Rec(KERNEL_DELAY, 0, t.delayBody)] else [])
  }

  function EopBytes(t: Task, links: Links): seq<byte> {
    Flat(Chain(Records(t, links)))
  }

  lemma RecWellFormed(kind: int, flag: byte, body: seq<byte>)
    requires StructSize(kind) == HDR_SIZE + |body|
    ensures WellFormed(Rec(kind, flag, body)) && Decode(Rec(kind, flag, body)).kind == kind
  {
    assert Rec(kind, flag, body)[..HDR_SIZE] == Head(kind, flag);
    DecodePrefix(Rec(kind, flag, body), Head(kind, flag));
  }

  lemma DecodePrefix(b: seq<byte>, head: seq<byte>)
    requires |b| >= |head| == HDR_SIZE && b[..HDR_SIZE] == head
    ensures Decode(b) == Decode(head)
  {
    assert forall k :: 0 <= k < HDR_SIZE ==> b[k] == b[..HDR_SIZE][k];
  }

  lemma BaseWellFormed(flag: byte, type2: int, size2: int, body: seq<byte>)
    requires 0 <= type2 < 256 && 0 <= size2 < 0x1_0000 && |body| == BODY_CSA
    ensures var r := BaseRec(flag, type2, size2, body);
            && WellFormed(r) && Decode(r).kind == KERNEL_CSA
            && Decode(r[HDR_SIZE..]) == Achead(0xFFFF - ACCT_MAGIC, RevTab(KERNEL_CSA), type2, 0, size2)
  {
    hide Encode, Decode;
    var r := BaseRec(flag, type2, size2, body);
    var second := Encode(Achead(0xFFFF - ACCT_MAGIC, RevTab(KERNEL_CSA), type2, 0, size2));
    assert r[..HDR_SIZE] == Head(KERNEL_CSA, flag);
    DecodePrefix(r, Head(KERNEL_CSA, flag));
    assert r[HDR_SIZE..][..HDR_SIZE] == second;
    DecodePrefix(r[HDR_SIZE..], second);
  }

  lemma RecordsWellFormed(t: Task, links: Links)
    requires ValidTask(t)
    ensures AllWellFormed(Records(t, links))
  {
    hide WellFormed, Rec, BaseRec, Decode;
    BaseWellFormed(t.flags, SecondType(links), SecondSize(links), t.csaBody);
    RecWellFormed(KERNEL_MEM, 0, t.memBody);
    RecWellFormed(KERNEL_IO, 0, t.ioBody);
    RecWellFormed(KERNEL_DELAY, 0, t.delayBody);
  }

  // ---- Reading an entry back ----

  // The record types an entry holds, in order
  function Kinds(links: Links): seq<int> {
    [KERNEL_CSA] + (if links.mem then [KERNEL_MEM] else []) + (if links.io then [KERNEL_IO] else [])
    + (if links.delay then [KERNEL_DELAY] else [])
  }

  // What the process left for a record type
  function Body(t: Task, kind: int): seq<byte> {
    if kind == KERNEL_CSA then t.csaBody else if kind == KERNEL_MEM then t.memBody
    else if kind == KERNEL_IO then t.ioBody else t.delayBody
  }

  function HeaderSize(kind: int): nat {
    if kind == KERNEL_CSA then 2 * HDR_SIZE else HDR_SIZE
  }

  // A record of this type holding the data of the process
  ghost predicate Holds(t: Task, kind: int, rec: seq<byte>) {
    && |rec| >= HeaderSize(kind) && Decode(rec).kind == kind && rec[HeaderSize(kind)..] == Body(t, kind)
  }

  lemma RecordsHold(t: Task, links: Links)
    requires ValidTask(t)
    ensures |Records(t, links)| == |Kinds(links)| > 0
    ensures forall k :: 0 <= k < |Kinds(links)| ==> Holds(t, Kinds(links)[k], Records(t, links)[k])
    ensures |Records(t, links)[0]| >= 2 * HDR_SIZE
    ensures Decode(Records(t, links)[0][HDR_SIZE..]) ==
            Achead(0xFFFF - ACCT_MAGIC, RevTab(KERNEL_CSA), SecondType(links), 0, SecondSize(links))
  {
    hide WellFormed, Decode;
    BaseWellFormed(t.flags, SecondType(links), SecondSize(links), t.csaBody);
    RecWellFormed(KERNEL_MEM, 0, t.memBody);
    RecWellFormed(KERNEL_IO, 0, t.ioBody);
    RecWellFormed(KERNEL_DELAY, 0, t.delayBody);
  }

  lemma MarkedHolds(t: Task, kind: int, rec: seq<byte>, more: bool)
    requires Holds(t, kind, rec)
    ensures Holds(t, kind, Marked(rec, more)) && More(Decode(Marked(rec, more)).flag) == more
    ensures Marked(rec, more)[HDR_SIZE..] == rec[HDR_SIZE..]
  {
    var r := Marked(rec, more);
    if kind == KERNEL_CSA {
      assert r[2 * HDR_SIZE..] == r[HDR_SIZE..][HDR_SIZE..] == rec[HDR_SIZE..][HDR_SIZE..] == rec[2 * HDR_SIZE..];
    }
  }

  // Size of an entry: the base record and what its second header announces
  lemma EntrySize(t: Task, links: Links)
    requires ValidTask(t)
    ensures |EopBytes(t, links)| == SIZE_CSA + SecondSize(links) <= ACCTENTSIZ
  {
    hide Rec, BaseRec, Marked, WithMore;
    Explicit(t, links);
    var flag := t.flags;
    assert forall f: byte :: |BaseRec(f, SecondType(links), SecondSize(links), t.csaBody)| == SIZE_CSA by {
      forall f: byte { BaseSize(f, SecondType(links), SecondSize(links), t.csaBody); }
    }
    assert forall f: byte :: |Rec(KERNEL_MEM, f, t.memBody)| == SIZE_MEM by {
      forall f: byte { RecSize(KERNEL_MEM, f, t.memBody); }
    }
    assert forall f: byte :: |Rec(KERNEL_IO, f, t.ioBody)| == SIZE_IO by {
      forall f: byte { RecSize(KERNEL_IO, f, t.ioBody); }
    }
    assert forall f: byte :: |Rec(KERNEL_DELAY, f, t.delayBody)| == SIZE_DELAY by {
      forall f: byte { RecSize(KERNEL_DELAY, f, t.delayBody); }
    }
  }

  lemma RecSize(kind: int, flag: byte, body: seq<byte>)
    requires StructSize(kind) > 0
    ensures |Rec(kind, flag, body)| == HDR_SIZE + |body|
  {
  }

  lemma BaseSize(flag: byte, type2: int, size2: int, body: seq<byte>)
    requires 0 <= type2 < 256 && 0 <= size2 < 0x1_0000
    ensures |BaseRec(flag, type2, size2, body)| == 2 * HDR_SIZE + |body|
  {
  }

  lemma MarkedRec(kind: int, flag: byte, body: seq<byte>, more: bool)
    requires StructSize(kind) > 0
    ensures Marked(Rec(kind, flag, body), more) == Rec(kind, WithMore(flag, more), body)
  {
    assert Head(kind, flag)[5 := WithMore(flag, more)] == Head(kind, WithMore(flag, more));
  }

  lemma MarkedBase(flag: byte, type2: int, size2: int, body: seq<byte>, more: bool)
    requires 0 <= type2 < 256 && 0 <= size2 < 0x1_0000
    ensures Marked(BaseRec(flag, type2, size2, body), more) == BaseRec(WithMore(flag, more), type2, size2, body)
  {
    assert Head(KERNEL_CSA, flag)[5 := WithMore(flag, more)] == Head(KERNEL_CSA, WithMore(flag, more));
  }

  // The bytes of an entry, header flags spelled out
  lemma Explicit(t: Task, links: Links)
    ensures EopBytes(t, links) ==
            BaseRec(WithMore(t.flags, links.mem || links.io || links.delay), SecondType(links), SecondSize(links), t.csaBody)
            + (if links.mem then Rec(KERNEL_MEM, WithMore(0, links.io || links.delay), t.memBody) else [])
            + (if links.io then Rec(KERNEL_IO, WithMore(0, links.delay), t.ioBody) else [])
            + (if links.delay then Rec(KERNEL_DELAY, WithMore(0, false), t.delayBody) else [])
  {
    hide Rec, BaseRec, Marked, WithMore;
    MarkedBase(t.flags, SecondType(links), SecondSize(links), t.csaBody, links.mem || links.io || links.delay);
    MarkedRec(KERNEL_MEM, 0, t.memBody, links.io || links.delay);
    MarkedRec(KERNEL_IO, 0, t.ioBody, links.delay);
    MarkedRec(KERNEL_DELAY, 0, t.delayBody, false);
    ChainOfFour(Records(t, links));
  }

  // Up to four records, chained
  lemma ChainOfFour(recs: seq<seq<byte>>)
    requires 1 <= |recs| <= 4
    ensures Flat(Chain(recs)) ==
            Marked(recs[0], |recs| > 1)
            + (if |recs| > 1 then Marked(recs[1], |recs| > 2) else [])
            + (if |recs| > 2 then Marked(recs[2], |recs| > 3) else [])
            + (if |recs| > 3 then Marked(recs[3], false) else [])
  {
    hide Marked;
    var c := Chain(recs);
    FlatOfFour(c);
  }

  lemma FlatOfFour(c: seq<seq<byte>>)
    requires 1 <= |c| <= 4
    ensures Flat(c) == c[0] + (if |c| > 1 then c[1] else []) + (if |c| > 2 then c[2] else []) + (if |c| > 3 then c[3] else [])
  {
    if |c| > 1 {
      assert Flat(c[1..]) == c[1] + Flat(c[1..][1..]);
      if |c| > 2 {
        assert c[1..][1..] == c[2..];
        assert Flat(c[2..]) == c[2] + Flat(c[2..][1..]);
        if |c| > 3 {
          assert c[2..][1..] == c[3..];
          assert Flat(c[3..]) == c[3] + Flat(c[3..][1..]);
        }
      }
    }
  }

  // Wherever these bytes stand in a file, a forward read finds the base record and exactly the linked ones, each with
  // the data of the process, chained by AMORE; the second header's size is that of the linked records together.
  lemma EopEntryParses(f: seq<byte>, p: nat, t: Task, links: Links)
    requires ValidTask(t)
    requires p + |EopBytes(t, links)| <= |f| && f[p..p + |EopBytes(t, links)|] == EopBytes(t, links)
    ensures ReadEntry(f, p, 0).Entry? && ReadEntry(f, p, 0).next == p + |EopBytes(t, links)|
    ensures var recs := ReadEntry(f, p, 0).recs;
            && |recs| == |Kinds(links)|
            && (forall k :: 0 <= k < |recs| ==>
                  Holds(t, Kinds(links)[k], recs[k]) && More(Decode(recs[k]).flag) == (k < |recs| - 1))
            && |recs[0]| >= 2 * HDR_SIZE
            && Decode(recs[0][HDR_SIZE..]).size == |EopBytes(t, links)| - SIZE_CSA
            && Decode(recs[0][HDR_SIZE..]).kind == 1 + (if links.io then 2 else 0) + (if links.delay then 4 else 0)
  {
    hide Decode, ReadEntry, Records, Marked, Chain, More, Flat, Kinds, Holds;
    var recs := Records(t, links);
    RecordsWellFormed(t, links);
    RecordsHold(t, links);
    EntrySize(t, links);
    ReadChain(f, p, recs, 0);
    forall k | 0 <= k < |recs|
      ensures Holds(t, Kinds(links)[k], Chain(recs)[k]) && More(Decode(Chain(recs)[k]).flag) == (k < |recs| - 1)
      ensures Chain(recs)[k][HDR_SIZE..] == recs[k][HDR_SIZE..]
    {
      MarkedHolds(t, Kinds(links)[k], recs[k], k < |recs| - 1);
    }
  }

  // ---- The buffer, built and then edited in place ----

  // flag |= bit for a single bit
  function WithBit(value: byte, bit: nat): (r: int)
    requires bit == 1 || bit == 2 || bit == 4
    ensures 0 <= r < 256
  {
    if value / bit % 2 == 1 then value else value + bit
  }

  // A header and a body are a record.
  lemma RecImage(kind: int, flag: byte, size: nat, body: seq<byte>)
    requires StructSize(kind) == size > 0
    ensures Encode(Achead(ACCT_MAGIC, RevTab(kind), kind, flag, size)) + body == Rec(kind, flag, body)
  {
  }

  lemma BaseImage(flag: byte, type2: int, size2: int, body: seq<byte>)
    requires 0 <= type2 < 256 && 0 <= size2 < 0x1_0000
    ensures Encode(Achead(ACCT_MAGIC, RevTab(KERNEL_CSA), KERNEL_CSA, flag, SIZE_CSA))
            + Encode(Achead(0xFFFF - ACCT_MAGIC, RevTab(KERNEL_CSA), type2, 0, size2)) + body
            == BaseRec(flag, type2, size2, body)
  {
  }

  lemma Sizes()
    ensures StructSize(KERNEL_CSA) == SIZE_CSA && StructSize(KERNEL_MEM) == SIZE_MEM
    ensures StructSize(KERNEL_IO) == SIZE_IO && StructSize(KERNEL_DELAY) == SIZE_DELAY
    ensures RevTab(KERNEL_CSA) == RevTab(KERNEL_MEM) == 3072 && RevTab(KERNEL_IO) == RevTab(KERNEL_DELAY) == 3584
  {
  }

  lemma MoreTwice()
    ensures forall flag: byte, a, b :: WithMore(WithMore(flag, a), b) == WithMore(flag, b)
    ensures WithMore(0, false) == 0
  {
  }

  // struct achead in the buffer
  class Header {
    var magic: nat
    var revision: nat
    var kind: byte
    var flag: byte
    var size: nat

    function Value(): Achead
      reads this
    {
      Achead(magic, revision, kind, flag, size)
    }

    // csa_header
    method Init(kind: byte, size: nat)
      requires RevTab(KERNEL_CSA) > 0 && RevTab(kind) > 0
      modifies this
      ensures Value() == Achead(ACCT_MAGIC, RevTab(kind), kind, 0, size)
    {
      magic, revision, this.kind, flag, this.size := ACCT_MAGIC, RevTab(kind), kind, 0, size;
    }
  }

  // The entry buffer of csa_acct_eop: the headers of its records. A record's body comes from the process and never changes.
  class EntryBuffer {
    const csa1: Header
    const csa2: Header
    const mem: Header
    const io: Header
    const delay: Header

    constructor ()
      ensures Distinct() && fresh(csa1) && fresh(csa2) && fresh(mem) && fresh(io) && fresh(delay)
    {
      csa1, csa2, mem, io, delay := new Header, new Header, new Header, new Header, new Header;
    }

    ghost predicate Distinct() {
      && csa1 != csa2 && csa1 != mem && csa1 != io && csa1 != delay && csa2 != mem && csa2 != io && csa2 != delay
      && mem != io && mem != delay && io != delay
    }

    // The headers of an entry as the buffer holds them while further records may follow the last one
    ghost predicate Built(t: Task, links: Links)
      reads csa1, csa2, mem, io, delay
    {
      && csa1.Value() == Achead(ACCT_MAGIC, RevTab(KERNEL_CSA), KERNEL_CSA,
                                WithMore(t.flags, links.mem || links.io || links.delay), SIZE_CSA)
      && csa2.Value() == Achead(0xFFFF - ACCT_MAGIC, RevTab(KERNEL_CSA), SecondType(links), 0, SecondSize(links))
      && (links.mem ==> mem.Value() == Achead(ACCT_MAGIC, RevTab(KERNEL_MEM), KERNEL_MEM,
                                              WithMore(0, links.io || links.delay), SIZE_MEM))
      && (links.io ==> io.Value() == Achead(ACCT_MAGIC, RevTab(KERNEL_IO), KERNEL_IO, WithMore(0, links.delay), SIZE_IO))
      && (links.delay ==> delay.Value() == Achead(ACCT_MAGIC, RevTab(KERNEL_DELAY), KERNEL_DELAY, 0, SIZE_DELAY))
    }

    // The records copied out one after the other, as a write sends them
    method Copy(t: Task, links: Links) returns (bytes: seq<byte>)
      requires Built(t, links)
      ensures bytes == EopBytes(t, links)
    {
      hide Encode, WithMore, Rec, BaseRec, EopBytes, RevTab, StructSize, SecondType;
      Explicit(t, links);
      MoreTwice();
      Sizes();
      var base := Encode(csa1.Value()) + Encode(csa2.Value()) + t.csaBody;
      BaseImage(csa1.flag, csa2.kind, csa2.size, t.csaBody);
      var memory, inout, delays := [], [], [];
      if links.mem {
        memory := Encode(mem.Value()) + t.memBody;
        RecImage(KERNEL_MEM, mem.flag, SIZE_MEM, t.memBody);
      }
      if links.io {
        inout := Encode(io.Value()) + t.ioBody;
        RecImage(KERNEL_IO, io.flag, SIZE_IO, t.ioBody);
      }
      if links.delay {
        delays := Encode(delay.Value()) + t.delayBody;
        RecImage(KERNEL_DELAY, delay.flag, SIZE_DELAY, t.delayBody);
      }
      bytes := base + memory + inout + delays;
    }

    // The record-building part of csa_acct_eop; `last` is its hdr1, the header that is to announce the next record.
    method Build(t: Task, links: Links)
      requires Distinct() && ValidTask(t)
      modifies csa1, csa2, mem, io, delay
      ensures Built(t, links)
    {
      csa1.Init(KERNEL_CSA, SIZE_CSA);
      csa2.Init(KERNEL_CSA, 0);
      csa2.magic := 0xFFFF - ACCT_MAGIC;
      csa1.flag := t.flags;
      var last := csa1;
      if links.mem {
        last.flag := WithMore(last.flag, true);
        csa2.kind := WithBit(csa2.kind, 1);
        last := mem;
        last.Init(KERNEL_MEM, SIZE_MEM);
        csa2.size := csa2.size + SIZE_MEM;
      }
      if links.io {
        last.flag := WithMore(last.flag, true);
        csa2.kind := WithBit(csa2.kind, 2);
        last := io;
        last.Init(KERNEL_IO, SIZE_IO);
        csa2.size := csa2.size + SIZE_IO;
      }
      if links.delay {
        last.flag := WithMore(last.flag, true);
        csa2.kind := WithBit(csa2.kind, 4);
        last := delay;
        last.Init(KERNEL_DELAY, SIZE_DELAY);
        csa2.size := csa2.size + SIZE_DELAY;
      }
    }

    // The header of the last record so far
    function LastHeader(links: Links): Header {
      if links.delay then delay else if links.io then io else if links.mem then mem else csa1
    }

    // One record more: the last header announces it, the second header counts it, its own header is the last one.
    method LinkMore(last: Header, next: Header, bit: nat, size: nat)
      requires last != next && csa2 != last && csa2 != next && (bit == 1 || bit == 2 || bit == 4)
      modifies last, next, csa2
      ensures last.Value() == old(last.Value()).(flag := WithMore(old(last.flag), true))
      ensures csa2.Value() == old(csa2.Value()).(kind := WithBit(old(csa2.kind), bit), size := old(csa2.size) + size)
      ensures next.Value() == old(next.Value()).(flag := WithMore(old(next.flag), false))
    {
      last.flag := WithMore(last.flag, true);
      csa2.kind := WithBit(csa2.kind, bit);
      csa2.size := csa2.size + size;
      next.flag := WithMore(next.flag, false);
    }

    // csa_modify_buf: edit the headers of a buffer that has at least these records down to exactly these.
    method ModifyBuf(t: Task, built: Links, links: Links) returns (bytes: seq<byte>)
      requires Distinct() && ValidTask(t) && Built(t, built)
      requires (links.mem ==> built.mem) && (links.io ==> built.io) && (links.delay ==> built.delay)
      modifies csa1, csa2, mem, io, delay
      ensures Built(t, links) && bytes == EopBytes(t, links)
    {
      hide WithMore, RevTab, StructSize, EopBytes, ValidTask;
      MoreTwice();
      csa1.flag := WithMore(csa1.flag, false);
      csa2.kind := KERNEL_CSA;
      csa2.size := 0;
      var last := csa1;
      assert Built(t, Links(false, false, false));
      if links.mem {
        LinkMore(last, mem, 1, SIZE_MEM);
        last := mem;
      }
      assert Built(t, Links(links.mem, false, false)) && last == LastHeader(Links(links.mem, false, false));
      if links.io {
        LinkMore(last, io, 2, SIZE_IO);
        last := io;
      }
      assert Built(t, Links(links.mem, links.io, false)) && last == LastHeader(Links(links.mem, links.io, false));
      if links.delay {
        LinkMore(last, delay, 4, SIZE_DELAY);
        last := delay;
      }
      bytes := Copy(t, links);
    }
  }
}
