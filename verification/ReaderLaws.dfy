// What the readers make of bytes that were not written by the writers: damaged, cut off, or of an older revision.

module ReaderLaws {
  import opened Basics
  import opened AcctHeader
  import opened AcctReader
  import opened AcctWriter
  import opened AcctBackward

  // ---- One record, in bytes ----

  // The magic, and a type that a reader lets through
  predicate KnownHeader(b: seq<byte>)
    requires |b| >= 8
  {
    b[0] == 0x4A && b[1] == 0x31 && b[4] in {1, 2, 4, 8, 10, 12, 16, 82, 144, 146, 148, 64, 65, 128, 129}
  }

  // The current revision of a type; 0 for site types, which have none
  function CurrentRevision(kind: byte): nat {
    if kind == 4 || kind == 8 then 3584 else if kind == 144 then 4096 else if kind in {64, 65, 128, 129} then 0 else 3072
  }

  // An older revision of a type with a structure
  predicate Convertible(b: seq<byte>)
    requires |b| >= 8
  {
    b[4] in {1, 2, 4, 8, 10, 12, 16, 82, 144} && 2560 <= U16(b[2], b[3]) <= CurrentRevision(b[4])
  }

  lemma HeaderTypes(b: seq<byte>)
    requires |b| >= 8
    ensures Decode(b).magic == ACCT_MAGIC && ValidType(Decode(b).kind) <==> KnownHeader(b)
    ensures ValidType(b[4]) ==> (Decode(b).revision == RevTab(b[4]) <==> U16(b[2], b[3]) == CurrentRevision(b[4]) > 0)
    ensures StructSize(b[4]) > 0 && OTFC_BASE_REV <= Decode(b).revision <= RevTab(b[4]) <==> Convertible(b)
  {
  }

  lemma ConvertsIf(raw: seq<byte>)
    requires |raw| >= HDR_SIZE
    ensures ConvertPacct(raw) != [] <==> Convertible(raw)
  {
    hide Encode;
    HeaderTypes(raw);
  }

  // The outcome of reading one record, for every file and place, by what stands there
  lemma RecordOutcome(f: seq<byte>, p: nat, room: nat)
    requires p <= |f| && room >= 8
    ensures var r := ReadRecord(f, p, room);
            && (r == NoRecord <==> p == |f|)
            && (r == ShortHeader <==> p < |f| < p + 8)
            && (p + 8 <= |f| ==>
                  var b := f[p..p + 8];
                  var size := U16(b[6], b[7]);
                  var n := if room < size then room else size;
                  var current := U16(b[2], b[3]) == CurrentRevision(b[4]) > 0;
                  && (r == BadHeader <==> !KnownHeader(b) || (n > 8 && p + n <= |f| && !current && !Convertible(b)))
                  && (r == ShortBody <==> KnownHeader(b) && n > 8 && |f| < p + n)
                  && (r.Record? ==> r.consumed == if n <= 8 then 8 else n)
                  && (r.Record? && (n <= 8 || current) ==> r.image == f[p..p + r.consumed]))
  {
    hide ConvertPacct, Decode, ValidType, RevTab;
    if p + 8 <= |f| {
      var b := f[p..p + 8];
      HeaderTypes(b);
      DecodedFields(b);
      var n := Min(room, Decode(b).size);
      if n > 8 && p + n <= |f| {
        ConvertsIf(f[p..p + n]);
        assert f[p..p + n][..8] == b;
        SameHeader(f[p..p + n], b);
      }
    }
  }

  lemma DecodedFields(b: seq<byte>)
    requires |b| >= 8
    ensures Decode(b).size == U16(b[6], b[7]) && Decode(b).kind == b[4]
  {
  }

  lemma SameHeader(a: seq<byte>, b: seq<byte>)
    requires |a| >= 8 && |b| == 8 && a[..8] == b
    ensures Convertible(a) == Convertible(b)
  {
    assert forall k :: 0 <= k < 8 ==> a[k] == a[..8][k];
  }

  // A record of an older revision comes out in the current one: same type and flags, the current size, its data as far as
  // they go, and zeros behind them.
  lemma ConvertedRecord(raw: seq<byte>)
    requires |raw| >= 8 && Convertible(raw)
    ensures var c := ConvertPacct(raw);
            && |c| == StructSize(raw[4]) >= 8
            && c[0] == 0x4A && c[1] == 0x31 && U16(c[2], c[3]) == CurrentRevision(raw[4])
            && c[4] == raw[4] && c[5] == raw[5] && U16(c[6], c[7]) == |c|
            && forall k :: 8 <= k < |c| ==> c[k] == if k < |raw| then raw[k] else 0
  {
    var n := StructSize(raw[4]);
    var head := Encode(Achead(ACCT_MAGIC, RevTab(raw[4]), raw[4], raw[5], n));
    assert raw[8..] == raw[HDR_SIZE..];
    var whole := head + raw[8..] + Zeros(n);
    assert ConvertPacct(raw) == whole[..n];
    assert forall k :: 8 <= k < n ==> whole[k] == if k < |raw| then raw[8..][k - 8] else Zeros(n)[k - |raw|];
  }

  // ---- One entry: what ends the chain ----

  // Records one after another from p up to q, each of a pacct type and announcing another; m bytes of the buffer are used.
  ghost predicate Linking(f: seq<byte>, p: nat, n: nat, images: seq<seq<byte>>, q: nat, m: nat)
    requires p <= |f|
    decreases |images|
  {
    if images == [] then p == q && n == m
    else
      var r := ReadRecord(f, p, ACCTENTSIZ - n);
      && r.Record? && r.image == images[0] && PacctType(r.image[4]) && More(r.image[5])
      && Linking(f, p + r.consumed, n + |r.image|, images[1..], q, m)
  }

  lemma OneLinked(f: seq<byte>, p: nat, n: nat)
    requires p <= |f|
    requires var r := ReadRecord(f, p, ACCTENTSIZ - n); r.Record? && PacctType(r.image[4]) && More(r.image[5])
    ensures var r := ReadRecord(f, p, ACCTENTSIZ - n);
            ReadEntry(f, p, n) ==
            match ReadEntry(f, p + r.consumed, n + |r.image|)
            case Entry(rest, next) => Entry([r.image] + rest, next)
            case other => other
  {
    hide ReadRecord, More, PacctType;
  }

  lemma {:induction false} LinkedAhead(f: seq<byte>, p: nat, n: nat, images: seq<seq<byte>>, q: nat, m: nat)
    requires p <= |f| && Linking(f, p, n, images, q, m)
    ensures q <= |f|
    ensures ReadEntry(f, p, n) ==
            match ReadEntry(f, q, m)
            case Entry(rest, next) => Entry(images + rest, next)
            case other => other
    decreases |images|
  {
    hide ReadRecord, More, PacctType, ReadEntry;
    if images == [] {
      var r := ReadEntry(f, q, m);
      assert r.Entry? ==> [] + r.recs == r.recs;
    } else {
      var r := ReadRecord(f, p, ACCTENTSIZ - n);
      OneLinked(f, p, n);
      LinkedAhead(f, p + r.consumed, n + |r.image|, images[1..], q, m);
      var e := ReadEntry(f, q, m);
      if e.Entry? {
        assert [images[0]] + (images[1..] + e.recs) == images + e.recs;
      }
    }
  }

  // An entry ends as the record behind its linked ones does: with the records so far if that announces no other, and
  // otherwise with the code of what is wrong there; the end of the file gives 0.
  lemma EntryEndsThere(f: seq<byte>, p: nat, images: seq<seq<byte>>, q: nat, m: nat)
    requires p <= |f| && Linking(f, p, 0, images, q, m)
    ensures q <= |f|
    ensures var r := ReadRecord(f, q, ACCTENTSIZ - m);
            && (r == NoRecord ==> ReadEntry(f, p, 0) == AtEnd)
            && (r == BadHeader ==> ReadEntry(f, p, 0) == Failed(-1))
            && (r == ShortHeader ==> ReadEntry(f, p, 0) == Failed(-2))
            && (r == ShortBody ==> ReadEntry(f, p, 0) == Failed(-3))
            && (r.Record? && !PacctType(r.image[4]) ==> ReadEntry(f, p, 0) == Failed(-1))
            && (r.Record? && PacctType(r.image[4]) && !More(r.image[5]) ==>
                  ReadEntry(f, p, 0) == Entry(images + [r.image], q + r.consumed))
  {
    hide ReadRecord, More, PacctType;
    LinkedAhead(f, p, 0, images, q, m);
  }

  // ---- Backward ----

  // What stepback takes for a header: the magic, a type that has a revision, a revision that can be converted or is the
  // current one, and a size from that of a header to that of the largest record
  lemma StepbackHits(f: seq<byte>, q: nat)
    ensures StepbackHit(f, q) <==>
            q + 8 <= |f|
            && var b := f[q..q + 8];
               && KnownHeader(b) && 2560 <= U16(b[2], b[3]) <= CurrentRevision(b[4]) && 8 <= U16(b[6], b[7]) <= 216
  {
    hide ValidType, RevTab;
    if q + 8 <= |f| {
      var b := f[q..q + 8];
      HeaderTypes(b);
      DecodedFields(b);
      if KnownHeader(b) {
        RevisionBound(b);
      }
    }
  }

  lemma RevisionBound(b: seq<byte>)
    requires |b| >= 8 && KnownHeader(b)
    ensures OTFC_BASE_REV <= Decode(b).revision <= RevTab(b[4]) <==> 2560 <= U16(b[2], b[3]) <= CurrentRevision(b[4])
  {
  }

  // A file that ends in a record announcing another: read backward, it fails at once with -1, where a forward read comes to
  // an end of file.
  lemma CutOffBackward(f: seq<byte>, rec: seq<byte>, s: nat)
    requires Findable(rec) && Linked(rec) && |f| == s + |rec| && f[s..] == rec
    ensures ReadBack(f, |f|, 0) == BackFailed(-1)
    ensures ReadEntry(f, s, 0) == AtEnd
  {
    hide StepbackHit, ReadRecord, WellFormed;
    assert f[s..s + |rec|] == rec;
    FindableHeader(rec);
    StepbackLands(f, rec, s, |f|);
    ReadPart(f, s, rec, ACCTENTSIZ);
    CutOffForward(f, rec, s);
  }

  lemma CutOffForward(f: seq<byte>, rec: seq<byte>, s: nat)
    requires WellFormed(rec) && Linked(rec) && |rec| <= SIZE_CFG && |f| == s + |rec| && f[s..s + |rec|] == rec
    ensures ReadEntry(f, s, 0) == AtEnd && f[s + 5] == rec[5]
  {
    hide ReadRecord;
    ReadPart(f, s, rec, ACCTENTSIZ);
    assert ReadRecord(f, |f|, ACCTENTSIZ - |rec|) == NoRecord by {
      EndThere(f, ACCTENTSIZ - |rec|);
    }
    assert f[s + 5] == f[s..s + |rec|][5];
  }

  lemma EndThere(f: seq<byte>, room: nat)
    requires room >= HDR_SIZE
    ensures ReadRecord(f, |f|, room) == NoRecord
  {
  }
}
