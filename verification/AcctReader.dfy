// Forward reading of pacct entries (csa/lib/acctio.c): what one read means, and the buffered reader itself.

module AcctReader {
  import opened Basics
  import opened AcctHeader

  // ---- What the readers mean ----

  // Outcome of reading one record: its image in the caller's buffer and the number of file bytes behind it.
  datatype RecResult =
    | NoRecord                                   //  0: end of file
    | BadHeader                                  // -1
    | ShortHeader                                // -2
    | ShortBody                                  // -3
    | Record(image: seq<byte>, consumed: nat)

  // Outcome of reading one entry, a chain of records linked by AMORE.
  datatype EntResult =
    | AtEnd                                      //  0
    | Failed(code: int)                          // -1, -2 or -3
    | Entry(recs: seq<seq<byte>>, next: nat)

  function Min(a: int, b: int): int {
    if a < b then a else b
  }

  function Zeros(n: nat): (z: seq<byte>)
    ensures |z| == n
  {
    seq(n, _ => 0)
  }

  // convert_pacct: rewrite the header of an old record to the current revision; [] when it cannot.
  function ConvertPacct(raw: seq<byte>): (r: seq<byte>)
    requires |raw| >= HDR_SIZE
    ensures r == [] || HDR_SIZE <= |r| <= SIZE_CFG
  {
    var h := Decode(raw);
    var n := StructSize(h.kind);
    if h.revision < OTFC_BASE_REV || h.revision > RevTab(h.kind) || n == 0 then []
    else (Encode(Achead(ACCT_MAGIC, RevTab(h.kind), h.kind, h.flag, n)) + raw[HDR_SIZE..] + Zeros(n))[..n]
  }

  // readpacct at offset p with `room` bytes left in the buffer.
  function ReadRecord(f: seq<byte>, p: nat, room: int): (r: RecResult)
    requires p <= |f|
    ensures r.Record? ==> HDR_SIZE <= |r.image| && HDR_SIZE <= r.consumed <= |f| - p
    ensures r.NoRecord? ==> p == |f|
  {
    if 0 <= room < HDR_SIZE then BadHeader
    else if p == |f| then NoRecord
    else if |f| - p < HDR_SIZE then ShortHeader
    else
      var h := Decode(f[p..p + HDR_SIZE]);
      var n := Min(room, h.size);
      if h.magic != ACCT_MAGIC || !ValidType(h.kind) then BadHeader
      else if n <= HDR_SIZE then Record(f[p..p + HDR_SIZE], HDR_SIZE)
      else if |f| - p < n then ShortBody
      else if h.revision == RevTab(h.kind) then Record(f[p..p + n], n)
      else
        var c := ConvertPacct(f[p..p + n]);
        if c == [] then BadHeader else Record(c, n)
  }

  // readacctent(FORWARD) at offset p, when nbytes of the entry are already in the buffer.
  function ReadEntry(f: seq<byte>, p: nat, nbytes: nat): (r: EntResult)
    requires p <= |f|
    ensures r.Entry? ==> r.recs != [] && p + HDR_SIZE <= r.next <= |f|
    ensures r.Entry? ==> forall k :: 0 <= k < |r.recs| ==> |r.recs[k]| >= HDR_SIZE && PacctType(Decode(r.recs[k]).kind)
    decreases |f| - p
  {
    match ReadRecord(f, p, ACCTENTSIZ - nbytes)
    case NoRecord => AtEnd
    case BadHeader => Failed(-1)
    case ShortHeader => Failed(-2)
    case ShortBody => Failed(-3)
    case Record(image, used) =>
      var h := Decode(image);
      if !PacctType(h.kind) then Failed(-1)
      else if !More(h.flag) then Entry([image], p + used)
      else match ReadEntry(f, p + used, nbytes + |image|)
        case Entry(rest, next) => Entry([image] + rest, next)
        case other => other
  }

  // ---- A read depends only on the bytes it consumes ----

  // Two stretches of two files hold the same bytes.
  ghost predicate SameBytes(f: seq<byte>, p: nat, g: seq<byte>, q: nat, n: nat) {
    p + n <= |f| && q + n <= |g| && f[p..p + n] == g[q..q + n]
  }

  lemma SliceOfSlice<T>(s: seq<T>, lo: nat, n: nat, i: nat, m: nat)
    requires i + m <= n && lo + n <= |s|
    ensures s[lo + i..lo + i + m] == s[lo..lo + n][i..i + m]
  {
    var a, b := s[lo + i..lo + i + m], s[lo..lo + n][i..i + m];
    forall k | 0 <= k < m
      ensures a[k] == b[k]
    {
      assert b[k] == s[lo..lo + n][i + k];
    }
    assert |a| == |b|;
  }

  lemma SameBytesPart(f: seq<byte>, p: nat, g: seq<byte>, q: nat, n: nat, i: nat, m: nat)
    requires SameBytes(f, p, g, q, n) && i + m <= n
    ensures SameBytes(f, p + i, g, q + i, m)
  {
    SliceOfSlice(f, p, n, i, m);
    SliceOfSlice(g, q, n, i, m);
  }

  lemma RecordIsLocal(f: seq<byte>, p: nat, g: seq<byte>, q: nat, room: int)
    requires p <= |f| && q <= |g|
    requires ReadRecord(f, p, room).Record?
    requires SameBytes(f, p, g, q, ReadRecord(f, p, room).consumed)
    ensures ReadRecord(g, q, room) == ReadRecord(f, p, room)
  {
    hide ConvertPacct, ValidType, Decode, RevTab;
    var used := ReadRecord(f, p, room).consumed;
    SameBytesPart(f, p, g, q, used, 0, HDR_SIZE);
  }

  // An entry that was read whole reads the same wherever its bytes occur.
  lemma {:induction false} EntryIsLocal(f: seq<byte>, p: nat, g: seq<byte>, q: nat, nbytes: nat)
    requires p <= |f| && q <= |g|
    requires ReadEntry(f, p, nbytes).Entry?
    requires SameBytes(f, p, g, q, ReadEntry(f, p, nbytes).next - p)
    ensures ReadEntry(g, q, nbytes) ==
            Entry(ReadEntry(f, p, nbytes).recs, q + ReadEntry(f, p, nbytes).next - p)
    decreases |f| - p
  {
    hide ReadRecord, PacctType, More, Decode;
    var total := ReadEntry(f, p, nbytes).next - p;
    var r := ReadRecord(f, p, ACCTENTSIZ - nbytes);
    if More(Decode(r.image).flag) {
      assert r.consumed <= total;
      SameBytesPart(f, p, g, q, total, 0, r.consumed);
      RecordIsLocal(f, p, g, q, ACCTENTSIZ - nbytes);
      SameBytesPart(f, p, g, q, total, r.consumed, total - r.consumed);
      EntryIsLocal(f, p + r.consumed, g, q + r.consumed, nbytes + |r.image|);
    } else {
      RecordIsLocal(f, p, g, q, ACCTENTSIZ - nbytes);
    }
  }

  // A chain that runs into the end of the file does so wherever the same tail ends a file.
  lemma {:induction false} EndIsLocal(f: seq<byte>, p: nat, g: seq<byte>, q: nat, nbytes: nat)
    requires p <= |f| && q <= |g| && |g| - q == |f| - p && SameBytes(f, p, g, q, |f| - p)
    requires ReadEntry(f, p, nbytes).AtEnd?
    ensures ReadEntry(g, q, nbytes).AtEnd?
    decreases |f| - p
  {
    hide PacctType, More, Decode, ReadRecord, SameBytes;
    var total := |f| - p;
    var r := ReadRecord(f, p, ACCTENTSIZ - nbytes);
    if r.Record? {
      SameBytesPart(f, p, g, q, total, 0, r.consumed);
      RecordIsLocal(f, p, g, q, ACCTENTSIZ - nbytes);
      SameBytesPart(f, p, g, q, total, r.consumed, total - r.consumed);
      EndIsLocal(f, p + r.consumed, g, q + r.consumed, nbytes + |r.image|);
    } else {
      EndMark(f, p, g, q, ACCTENTSIZ - nbytes);
    }
  }

  lemma EndMark(f: seq<byte>, p: nat, g: seq<byte>, q: nat, room: int)
    requires p <= |f| && q <= |g| && |g| - q == |f| - p
    ensures ReadRecord(f, p, room).NoRecord? ==> ReadRecord(g, q, room).NoRecord?
  {
    hide ConvertPacct, Decode, ValidType, RevTab;
  }

  // Whole records from p up to the end of the file, every one of them announcing another.
  ghost predicate AllLinkedToEnd(f: seq<byte>, p: nat, nbytes: nat)
    requires p <= |f|
    decreases |f| - p
  {
    var room := ACCTENTSIZ - nbytes;
    var r := ReadRecord(f, p, room);
    if p == |f| then room < 0 || room >= HDR_SIZE
    else
      && r.Record? && PacctType(Decode(r.image).kind) && More(Decode(r.image).flag)
      && AllLinkedToEnd(f, p + r.consumed, nbytes + |r.image|)
  }

  // "End of file" is also what a reader says of an entry whose last record still announces another: cut off, not absent.
  lemma {:induction false} AtEndMeansLinkedToEnd(f: seq<byte>, p: nat, nbytes: nat)
    requires p <= |f|
    ensures ReadEntry(f, p, nbytes).AtEnd? <==> AllLinkedToEnd(f, p, nbytes)
    decreases |f| - p
  {
    hide PacctType, More, Decode, ConvertPacct, ValidType, RevTab;
    var r := ReadRecord(f, p, ACCTENTSIZ - nbytes);
    if r.Record? {
      AtEndMeansLinkedToEnd(f, p + r.consumed, nbytes + |r.image|);
    }
  }
}
