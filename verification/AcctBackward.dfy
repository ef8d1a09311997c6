// Backward reading of pacct entries (csa/lib/acctio.c): scanning for headers eight bytes at a time from the end.

module AcctBackward {
  import opened Basics
  import opened AcctHeader
  import opened AcctReader
  import opened AcctWriter

  // ---- What the backward reader means ----

  // stepback's test on the eight bytes at q
  predicate StepbackHit(f: seq<byte>, q: nat) {
    q + HDR_SIZE <= |f|
    && var h := Decode(f[q..q + HDR_SIZE]);
       && h.magic == ACCT_MAGIC && ValidType(h.kind)
       && OTFC_BASE_REV <= h.revision <= RevTab(h.kind)
       && HDR_SIZE <= h.size <= SIZE_CFG
  }

  // stepback from p: where the header it finds starts, or -1
  function StepbackFrom(f: seq<byte>, p: nat): (q: int)
    requires p <= |f|
    ensures -1 <= q <= p - HDR_SIZE || q == -1
    ensures q >= 0 ==> StepbackHit(f, q)
    decreases p
  {
    if p < HDR_SIZE then -1
    else if StepbackHit(f, p - HDR_SIZE) then p - HDR_SIZE
    else StepbackFrom(f, p - HDR_SIZE)
  }

  // The scan stops at the nearest word before p, in steps of a header, that passes for one; at the start without one.
  lemma {:induction false} StepbackNearest(f: seq<byte>, p: nat)
    requires p <= |f|
    ensures StepbackFrom(f, p) >= 0 ==> (p - StepbackFrom(f, p)) % HDR_SIZE == 0
    ensures forall j: nat :: j + HDR_SIZE <= p && (p - j) % HDR_SIZE == 0 && StepbackHit(f, j) ==> j <= StepbackFrom(f, p)
    decreases p
  {
    hide StepbackHit;
    if p >= HDR_SIZE && !StepbackHit(f, p - HDR_SIZE) {
      StepbackNearest(f, p - HDR_SIZE);
      SameWords(StepbackFrom(f, p), p);
      forall j: nat | j + HDR_SIZE <= p && (p - j) % HDR_SIZE == 0 && StepbackHit(f, j)
        ensures j <= StepbackFrom(f, p)
      {
        SameWords(j, p);
      }
    }
  }

  lemma SameWords(j: int, p: nat)
    requires HDR_SIZE <= p
    ensures (p - HDR_SIZE - j) % HDR_SIZE == (p - j) % HDR_SIZE
    ensures j + HDR_SIZE <= p && (p - j) % HDR_SIZE == 0 && j != p - HDR_SIZE ==> j + HDR_SIZE <= p - HDR_SIZE
  {
  }

  // Where the file is positioned after stepback
  function Landing(q: int): nat {
    if q < 0 then 0 else q
  }

  // Records in buffer order, last of the entry first, and the position the call leaves; no records at the start of the file.
  datatype BackResult = BackFailed(code: int) | BackEntry(recs: seq<seq<byte>>, pos: nat)

  // readacctent(BACKWARD) at position p when nbytes of the entry are already in the buffer
  function ReadBack(f: seq<byte>, p: nat, nbytes: nat): (r: BackResult)
    requires p <= |f|
    ensures r.BackEntry? ==> r.pos <= |f|
    ensures r.BackEntry? ==> forall k :: 0 <= k < |r.recs| ==> |r.recs[k]| >= HDR_SIZE
    decreases if nbytes <= ACCTENTSIZ then ACCTENTSIZ + 1 - nbytes else 0, p
  {
    var q := StepbackFrom(f, p);
    if q < 0 then BackEntry([], 0)
    else if nbytes == ACCTENTSIZ then BackEntry([], q + HDR_SIZE)
    else
      match ReadRecord(f, q, ACCTENTSIZ - nbytes)
      case NoRecord => BackEntry([], p)          // not after a stepback that found a header
      case BadHeader => BackFailed(-1)
      case ShortHeader => BackFailed(-2)
      case ShortBody => BackFailed(-3)
      case Record(image, used) =>
        if More(f[q + 5]) && nbytes == 0 then BackFailed(-1)
        else if !More(f[q + 5]) && nbytes != 0 then BackEntry([], q + used)
        else if !PacctType(Decode(image).kind) then BackFailed(-1)
        else
          match ReadBack(f, Landing(StepbackFrom(f, q + used)), nbytes + |image|)
          case BackEntry(rest, pos) => BackEntry([image] + rest, pos)
          case failed => failed
  }

  // With a buffer overrun by conversions only headers are read, so the position alone makes progress.
  lemma OverrunReadsHeaders(f: seq<byte>, q: nat, nbytes: nat)
    requires q <= |f| && nbytes > ACCTENTSIZ && StepbackHit(f, q)
    ensures ReadRecord(f, q, ACCTENTSIZ - nbytes).Record? ==> ReadRecord(f, q, ACCTENTSIZ - nbytes).consumed == HDR_SIZE
    ensures StepbackFrom(f, q + HDR_SIZE) == q
  {
    hide ConvertPacct, Decode;
  }

  // ---- Files made of well-formed entries ----

  // A record the backward reader can find: padded to words, none of whose inner words looks like a header.
  predicate Findable(rec: seq<byte>) {
    && WellFormed(rec) && |rec| % HDR_SIZE == 0 && |rec| <= SIZE_CFG
    && forall j: nat :: HDR_SIZE <= j < |rec| && j % HDR_SIZE == 0 ==> !StepbackHit(rec, j)
  }

  predicate Linked(rec: seq<byte>) {
    |rec| >= HDR_SIZE && More(rec[5])
  }

  // The records of a file from left to right, and where record i starts.
  function StartOf(recs: seq<seq<byte>>, i: nat): nat
    requires i <= |recs|
  {
    |Flat(recs[..i])|
  }

  lemma {:induction false} FlatSplit(recs: seq<seq<byte>>, i: nat)
    requires i < |recs|
    ensures Flat(recs) == Flat(recs[..i]) + recs[i] + Flat(recs[i + 1..])
    decreases recs
  {
    if i == 0 {
      assert recs[..0] == [];
    } else {
      var rest := recs[1..];
      FlatSplit(rest, i - 1);
      assert recs[..i] == [recs[0]] + rest[..i - 1] && recs[..i][1..] == rest[..i - 1];
      assert recs[i + 1..] == rest[i..];
      assert recs[0] + (Flat(rest[..i - 1]) + rest[i - 1] + Flat(rest[i..]))
          == (recs[0] + Flat(rest[..i - 1])) + rest[i - 1] + Flat(rest[i..]);
    }
  }

  lemma {:induction false} FlatPrefix(recs: seq<seq<byte>>, i: nat)
    requires i < |recs|
    ensures Flat(recs[..i + 1]) == Flat(recs[..i]) + recs[i]
  {
    FlatSplit(recs[..i + 1], i);
    assert recs[..i + 1][..i] == recs[..i] && recs[..i + 1][i + 1..] == [];
  }

  // Record i occupies its place in the file.
  lemma RecordInPlace(f: seq<byte>, recs: seq<seq<byte>>, i: nat)
    requires f == Flat(recs) && i < |recs|
    ensures StartOf(recs, i + 1) == StartOf(recs, i) + |recs[i]| <= |f|
    ensures f[StartOf(recs, i)..StartOf(recs, i + 1)] == recs[i]
  {
    hide Flat;
    FlatSplit(recs, i);
    FlatPrefix(recs, i);
  }

  lemma HitInPlace(f: seq<byte>, rec: seq<byte>, s: nat, j: nat)
    requires s + |rec| <= |f| && f[s..s + |rec|] == rec && j + HDR_SIZE <= |rec|
    ensures StepbackHit(f, s + j) == StepbackHit(rec, j)
  {
    hide Decode, RevTab, ValidType;
    SliceOfSlice(f, s, |rec|, j, HDR_SIZE);
  }

  lemma FindableHeader(rec: seq<byte>)
    requires Findable(rec)
    ensures |rec| >= HDR_SIZE && |rec| % HDR_SIZE == 0 && StepbackHit(rec, 0) && WellFormed(rec)
  {
    assert rec[0..HDR_SIZE] == rec[..HDR_SIZE];
  }

  // From any word inside a record, or from its end, stepback lands on its header.
  lemma {:induction false} StepbackLands(f: seq<byte>, rec: seq<byte>, s: nat, p: nat)
    requires Findable(rec) && s + |rec| <= |f| && f[s..s + |rec|] == rec
    requires s < p <= s + |rec| && (p - s) % HDR_SIZE == 0
    ensures StepbackFrom(f, p) == s
    decreases p
  {
    hide StepbackHit, WellFormed;
    FindableHeader(rec);
    HitInPlace(f, rec, s, p - HDR_SIZE - s);
    if p - HDR_SIZE > s {
      StepbackLands(f, rec, s, p - HDR_SIZE);
    }
  }

  // ---- One backward call returns one entry ----

  // The reader stands behind record i - 1: at its end, or on a word inside it; at the start of the file when i is 0.
  ghost predicate Behind(recs: seq<seq<byte>>, i: nat, p: nat)
    requires i <= |recs|
  {
    if i == 0 then p == 0
    else
      && StartOf(recs, i - 1) < p <= StartOf(recs, i - 1) + |recs[i - 1]|
      && (p - StartOf(recs, i - 1)) % HDR_SIZE == 0
  }

  function Rev<T>(s: seq<T>): (r: seq<T>)
    ensures |r| == |s|
    ensures forall k :: 0 <= k < |s| ==> r[k] == s[|s| - 1 - k]
  {
    if s == [] then [] else [s[|s| - 1]] + Rev(s[..|s| - 1])
  }

  // Records a..b form an entry of the file that fits the buffer.
  ghost predicate EntryAt(recs: seq<seq<byte>>, a: nat, b: nat) {
    && a < b <= |recs|
    && (forall k :: 0 <= k < |recs| ==> Findable(recs[k]))
    && !Linked(recs[b - 1]) && (forall k :: a <= k < b - 1 ==> Linked(recs[k]))
    && (a > 0 ==> !Linked(recs[a - 1]))
    && StartOf(recs, b) - StartOf(recs, a) <= ACCTENTSIZ
  }

  // What a read of the record at s gives when the buffer has room for only part of it.
  lemma ReadPart(f: seq<byte>, s: nat, rec: seq<byte>, room: int)
    requires WellFormed(rec) && s + |rec| <= |f| && f[s..s + |rec|] == rec && room >= HDR_SIZE
    ensures var r := ReadRecord(f, s, room);
            && r.Record?
            && r.consumed == (if room < |rec| then room else |rec|)
            && (room >= |rec| ==> r.image == rec)
  {
    hide ConvertPacct;
    SliceOfSlice(f, s, |rec|, 0, HDR_SIZE);
    assert Decode(f[s..s + HDR_SIZE]) == Decode(rec);
  }

  lemma {:induction false} StartsAligned(recs: seq<seq<byte>>, i: nat)
    requires forall k :: 0 <= k < |recs| ==> Findable(recs[k])
    requires i <= |recs|
    ensures StartOf(recs, i) % HDR_SIZE == 0
    decreases i
  {
    hide WellFormed, Flat;
    if i > 0 {
      StartsAligned(recs, i - 1);
      FlatPrefix(recs, i - 1);
      assert Findable(recs[i - 1]);
    } else {
      assert recs[..0] == [];
      FlatNothing();
    }
  }

  lemma FlatNothing()
    ensures Flat([]) == []
  {
  }

  lemma {:induction false} StartsGrow(recs: seq<seq<byte>>, i: nat, j: nat)
    requires i <= j <= |recs|
    ensures StartOf(recs, i) <= StartOf(recs, j)
    decreases j
  {
    hide Flat;
    if i < j {
      StartsGrow(recs, i, j - 1);
      FlatPrefix(recs, j - 1);
    }
  }

  // A round of the loop that meets the entry before.
  lemma ReadBackStops(f: seq<byte>, p: nat, nbytes: nat, s: nat)
    requires p <= |f| && StepbackFrom(f, p) == s && 0 < nbytes <= ACCTENTSIZ && !More(f[s + 5])
    requires nbytes < ACCTENTSIZ ==> ReadRecord(f, s, ACCTENTSIZ - nbytes).Record?
    ensures ReadBack(f, p, nbytes) ==
            BackEntry([], s + if nbytes == ACCTENTSIZ then HDR_SIZE else ReadRecord(f, s, ACCTENTSIZ - nbytes).consumed)
  {
    hide StepbackHit, ReadRecord, PacctType, Decode, More;
  }

  // What is known of record k of the entry a..b, or of the last record of the entry before.
  lemma EntryRecord(f: seq<byte>, recs: seq<seq<byte>>, a: nat, b: nat, k: nat)
    requires f == Flat(recs) && EntryAt(recs, a, b) && k < b && (a <= k || k == a - 1)
    ensures var s, rec := StartOf(recs, k), recs[k];
            && Findable(rec) && WellFormed(rec) && |rec| >= HDR_SIZE && |rec| % HDR_SIZE == 0
            && s + |rec| == StartOf(recs, k + 1) <= |f| && f[s..s + |rec|] == rec
            && (More(f[s + 5]) <==> a <= k < b - 1)
  {
    hide Flat, StepbackHit, WellFormed, StartOf, Findable;
    var s, rec := StartOf(recs, k), recs[k];
    RecordInPlace(f, recs, k);
    assert Findable(rec);
    FindableHeader(rec);
    assert f[s + 5] == f[s..s + |rec|][5] == rec[5];
  }

  // The reader has taken the whole entry: the call ends behind the entry before it, perhaps inside its last record.
  lemma BackStops(f: seq<byte>, recs: seq<seq<byte>>, a: nat, b: nat, p: nat)
    requires f == Flat(recs) && EntryAt(recs, a, b) && p <= |f| && Behind(recs, a, p)
    requires StartOf(recs, a) < StartOf(recs, b)
    ensures var r := ReadBack(f, p, StartOf(recs, b) - StartOf(recs, a));
            r.BackEntry? && r.recs == [] && Behind(recs, a, r.pos)
  {
    hide Flat, StepbackHit, WellFormed, ReadRecord, StartOf, Findable, Linked, ReadBack, StepbackFrom, Decode, More;
    var nbytes := StartOf(recs, b) - StartOf(recs, a);
    if a == 0 {
      ReadBackAtStart(f, nbytes);
    } else {
      var s, rec := StartOf(recs, a - 1), recs[a - 1];
      EntryRecord(f, recs, a, b, a - 1);
      StepbackLands(f, rec, s, p);
      StartsAligned(recs, a);
      StartsAligned(recs, b);
      StopPlace(StartOf(recs, a), StartOf(recs, b), |rec|);
      if nbytes < ACCTENTSIZ {
        ReadPart(f, s, rec, ACCTENTSIZ - nbytes);
      }
      ReadBackStops(f, p, nbytes, s);
      BehindLast(recs, a, ReadBack(f, p, nbytes).pos);
    }
  }

  // How far into a record the reader gets with the room an entry from lo to hi leaves
  lemma StopPlace(lo: nat, hi: nat, size: nat)
    requires lo < hi <= lo + ACCTENTSIZ && lo % HDR_SIZE == hi % HDR_SIZE == 0
    requires HDR_SIZE <= size && size % HDR_SIZE == 0
    ensures hi < lo + ACCTENTSIZ ==> hi + HDR_SIZE <= lo + ACCTENTSIZ
    ensures var room := lo + ACCTENTSIZ - hi;
            var c := if room == 0 then HDR_SIZE else if room < size then room else size;
            0 < c <= size && c % HDR_SIZE == 0
  {
  }

  lemma BehindLast(recs: seq<seq<byte>>, a: nat, p: nat)
    requires 0 < a <= |recs|
    ensures Behind(recs, a, p) <==>
              StartOf(recs, a - 1) < p <= StartOf(recs, a - 1) + |recs[a - 1]| && (p - StartOf(recs, a - 1)) % HDR_SIZE == 0
  {
    hide StartOf;
  }

  lemma PacctRecord(rec: seq<byte>)
    requires WellFormed(rec)
    ensures |rec| >= HDR_SIZE && PacctType(Decode(rec).kind)
  {
  }

  // One round of the loop that takes the record at s.
  lemma ReadBackTakes(f: seq<byte>, p: nat, nbytes: nat, s: nat, rec: seq<byte>)
    requires p <= |f| && StepbackFrom(f, p) == s && s + |rec| <= |f| && StepbackFrom(f, s + |rec|) == s
    requires nbytes < ACCTENTSIZ && ReadRecord(f, s, ACCTENTSIZ - nbytes) == Record(rec, |rec|)
    requires More(f[s + 5]) <==> nbytes != 0
    requires |rec| >= HDR_SIZE && PacctType(Decode(rec).kind)
    ensures ReadBack(f, p, nbytes) ==
            match ReadBack(f, s, nbytes + |rec|)
            case BackEntry(rest, pos) => BackEntry([rec] + rest, pos)
            case failed => failed
  {
    hide StepbackHit, ReadRecord, PacctType, Decode, More;
  }

  // Records c..b are in the buffer; the call goes on to return the records before them, down to a.
  lemma {:induction false} BackContinues(f: seq<byte>, recs: seq<seq<byte>>, a: nat, b: nat, c: nat, p: nat)
    requires f == Flat(recs) && EntryAt(recs, a, b) && a <= c <= b && p <= |f| && Behind(recs, c, p)
    requires StartOf(recs, c) <= StartOf(recs, b)
    requires c == a || c < b ==> StartOf(recs, c) < StartOf(recs, b)
    ensures var r := ReadBack(f, p, StartOf(recs, b) - StartOf(recs, c));
            r.BackEntry? && r.recs == Rev(recs[a..c]) && Behind(recs, a, r.pos)
    decreases c
  {
    hide Flat, StartOf, ReadBack, Behind, EntryAt, Rev;
    BoundsOf(recs, a, b);
    if c == a {
      BackStops(f, recs, a, b, p);
      RevNothing(recs[a..c]);
    } else {
      BackTakes(f, recs, a, b, c, p);
      BackContinues(f, recs, a, b, c - 1, StartOf(recs, c - 1));
      RevLast(recs, a, c);
    }
  }

  lemma BoundsOf(recs: seq<seq<byte>>, a: nat, b: nat)
    requires EntryAt(recs, a, b)
    ensures a < b <= |recs| && StartOf(recs, b) - StartOf(recs, a) <= ACCTENTSIZ
    ensures forall k :: 0 <= k < |recs| ==> Findable(recs[k])
  {
    hide Findable, StartOf, Linked;
  }

  lemma RevNothing(recs: seq<seq<byte>>)
    requires recs == []
    ensures Rev(recs) == []
  {
  }

  lemma RevLast(recs: seq<seq<byte>>, a: nat, c: nat)
    requires a < c <= |recs|
    ensures Rev(recs[a..c]) == [recs[c - 1]] + Rev(recs[a..c - 1])
  {
    assert recs[a..c][..c - a - 1] == recs[a..c - 1];
  }

  // One round of the loop takes record c - 1 and goes on from its start.
  lemma BackTakes(f: seq<byte>, recs: seq<seq<byte>>, a: nat, b: nat, c: nat, p: nat)
    requires f == Flat(recs) && EntryAt(recs, a, b) && a < c <= b && p <= |f| && Behind(recs, c, p)
    requires StartOf(recs, c) <= StartOf(recs, b) && (c < b ==> StartOf(recs, c) < StartOf(recs, b))
    ensures var s, nbytes := StartOf(recs, c - 1), StartOf(recs, b) - StartOf(recs, c);
            && s <= |f| && Behind(recs, c - 1, s) && s < StartOf(recs, c)
            && ReadBack(f, p, nbytes)
               == match ReadBack(f, s, StartOf(recs, b) - s)
                  case BackEntry(rest, pos) => BackEntry([recs[c - 1]] + rest, pos)
                  case failed => failed
  {
    hide Flat, StepbackHit, WellFormed, ReadRecord, StartOf, Findable, ReadBack, Linked, EntryAt, Behind, StepbackFrom, Decode,
         More, PacctType;
    BoundsOf(recs, a, b);
    var s, rec, nbytes := StartOf(recs, c - 1), recs[c - 1], StartOf(recs, b) - StartOf(recs, c);
    BehindLast(recs, c, p);
    EntryRecord(f, recs, a, b, c - 1);
    StepbackLands(f, rec, s, p);
    StepbackLands(f, rec, s, s + |rec|);
    StartsGrow(recs, a, c - 1);
    PacctRecord(rec);
    ReadPart(f, s, rec, ACCTENTSIZ - nbytes);
    ReadBackTakes(f, p, nbytes, s, rec);
    BackBehind(f, recs, c - 1, rec);
  }

  // The start of record i is a place behind record i - 1.
  lemma BackBehind(f: seq<byte>, recs: seq<seq<byte>>, i: nat, rec: seq<byte>)
    requires f == Flat(recs) && i < |recs| && recs[i] == rec
    requires forall k :: 0 <= k < |recs| ==> Findable(recs[k])
    ensures Behind(recs, i, StartOf(recs, i))
  {
    hide Flat, WellFormed, StepbackHit;
    if i > 0 {
      RecordInPlace(f, recs, i - 1);
      FindableHeader(recs[i - 1]);
      assert Findable(recs[i - 1]);
    } else {
      assert recs[..0] == [];
      FlatNothing();
    }
  }

  // ---- Backward reading reverses forward reading ----

  type Ent = seq<seq<byte>>

  // An entry as writers leave it: all but its last record announce another.
  ghost predicate WellFormedEntry(e: Ent) {
    && e != [] && (forall k :: 0 <= k < |e| ==> Findable(e[k]))
    && !Linked(e[|e| - 1]) && (forall k :: 0 <= k < |e| - 1 ==> Linked(e[k]))
    && |Flat(e)| <= ACCTENTSIZ
  }

  function AllRecs(ents: seq<Ent>): seq<seq<byte>> {
    if ents == [] then [] else AllRecs(ents[..|ents| - 1]) + ents[|ents| - 1]
  }

  // All entries a forward reader gets from p on
  function ForwardAll(f: seq<byte>, p: nat): seq<Ent>
    requires p <= |f|
    decreases |f| - p
  {
    match ReadEntry(f, p, 0)
    case Entry(recs, next) => [recs] + ForwardAll(f, next)
    case _ => []
  }

  // All entries a backward reader gets from p on, records in buffer order
  function BackwardAll(f: seq<byte>, p: nat): seq<Ent>
    requires p <= |f|
    decreases p
  {
    var r := ReadBack(f, p, 0);
    if r.BackEntry? && r.recs != [] && r.pos < p then [r.recs] + BackwardAll(f, r.pos) else []
  }

  // The entries in reverse, each with its records in reverse.
  function RevAll(ents: seq<Ent>): seq<Ent> {
    if ents == [] then [] else [Rev(ents[|ents| - 1])] + RevAll(ents[..|ents| - 1])
  }

  lemma {:induction false} FlatConcat(a: seq<seq<byte>>, b: seq<seq<byte>>)
    ensures Flat(a + b) == Flat(a) + Flat(b)
  {
    if a == [] {
      assert a + b == b;
    } else {
      assert (a + b)[0] == a[0] && (a + b)[1..] == a[1..] + b;
      FlatConcat(a[1..], b);
      assert a[0] + (Flat(a[1..]) + Flat(b)) == (a[0] + Flat(a[1..])) + Flat(b);
    }
  }

  lemma {:induction false} RecsPrefix(ents: seq<Ent>, n: nat)
    requires n <= |ents|
    ensures |AllRecs(ents[..n])| <= |AllRecs(ents)|
    ensures AllRecs(ents)[..|AllRecs(ents[..n])|] == AllRecs(ents[..n])
    decreases |ents|
  {
    if n < |ents| {
      var before := ents[..|ents| - 1];
      RecsPrefix(before, n);
      assert before[..n] == ents[..n];
      assert AllRecs(ents)[..|AllRecs(before)|] == AllRecs(before);
    } else {
      assert ents[..n] == ents;
    }
  }

  lemma {:induction false} RecsFindable(ents: seq<Ent>)
    requires forall k :: 0 <= k < |ents| ==> WellFormedEntry(ents[k])
    ensures forall k :: 0 <= k < |AllRecs(ents)| ==> Findable(AllRecs(ents)[k])
  {
    hide Findable, Flat;
    if ents != [] {
      RecsFindable(ents[..|ents| - 1]);
      assert WellFormedEntry(ents[|ents| - 1]);
    }
  }

  // Where entry n - 1 lies among the records of the file.
  lemma EntryPlace(ents: seq<Ent>, n: nat)
    requires 0 < n <= |ents|
    requires forall k :: 0 <= k < |ents| ==> WellFormedEntry(ents[k])
    ensures var recs, a, b := AllRecs(ents), |AllRecs(ents[..n - 1])|, |AllRecs(ents[..n])|;
            && EntryAt(recs, a, b) && recs[a..b] == ents[n - 1]
            && StartOf(recs, b) == StartOf(recs, a) + |Flat(ents[n - 1])|
  {
    hide Findable, Linked, AllRecs, Flat;
    var recs, e := AllRecs(ents), ents[n - 1];
    var a, b := |AllRecs(ents[..n - 1])|, |AllRecs(ents[..n])|;
    RecsFindable(ents);
    EntrySlice(ents, n);
    StartBehind(ents, n);
    assert WellFormedEntry(e);
    if n > 1 {
      EntrySlice(ents, n - 1);
      assert WellFormedEntry(ents[n - 2]);
    } else {
      NoRecs(ents);
    }
  }

  // The records of entry n - 1 in the file's
  lemma EntrySlice(ents: seq<Ent>, n: nat)
    requires 0 < n <= |ents|
    ensures var recs, a, b := AllRecs(ents), |AllRecs(ents[..n - 1])|, |AllRecs(ents[..n])|;
            && a + |ents[n - 1]| == b <= |recs| && recs[a..b] == ents[n - 1]
            && forall k :: a <= k < b ==> recs[k] == ents[n - 1][k - a]
  {
    hide AllRecs;
    var recs, e := AllRecs(ents), ents[n - 1];
    var a, b := |AllRecs(ents[..n - 1])|, |AllRecs(ents[..n])|;
    RecsPrefix(ents, n);
    RecsStep(ents, n);
    assert recs[..b] == AllRecs(ents[..n - 1]) + e;
    forall k | a <= k < b
      ensures recs[k] == e[k - a]
    {
      assert recs[k] == recs[..b][k];
    }
  }

  lemma StartBehind(ents: seq<Ent>, n: nat)
    requires 0 < n <= |ents|
    ensures var recs, a, b := AllRecs(ents), |AllRecs(ents[..n - 1])|, |AllRecs(ents[..n])|;
            a <= b <= |recs| && StartOf(recs, b) == StartOf(recs, a) + |Flat(ents[n - 1])|
  {
    hide AllRecs, Flat;
    RecsPrefix(ents, n);
    RecsPrefix(ents, n - 1);
    RecsStep(ents, n);
    FlatConcat(AllRecs(ents[..n - 1]), ents[n - 1]);
  }

  lemma RecsStep(ents: seq<Ent>, n: nat)
    requires 0 < n <= |ents|
    ensures AllRecs(ents[..n]) == AllRecs(ents[..n - 1]) + ents[n - 1]
  {
    assert ents[..n][..n - 1] == ents[..n - 1];
  }

  lemma NoRecs(ents: seq<Ent>)
    ensures AllRecs(ents[..0]) == []
  {
  }

  // From behind entry n - 1, backward calls return the first n entries, last first.
  lemma {:induction false} BackwardFrom(f: seq<byte>, ents: seq<Ent>, n: nat, p: nat)
    requires f == Flat(AllRecs(ents)) && n <= |ents| && p <= |f|
    requires forall k :: 0 <= k < |ents| ==> WellFormedEntry(ents[k])
    requires |AllRecs(ents[..n])| <= |AllRecs(ents)| && Behind(AllRecs(ents), |AllRecs(ents[..n])|, p)
    ensures BackwardAll(f, p) == RevAll(ents[..n])
    decreases n
  {
    hide Flat, WellFormedEntry, ReadBack, StartOf;
    if n == 0 {
      assert ents[..0] == [];
      ReadBackAtStart(f, 0);
    } else {
      var recs, a, b := AllRecs(ents), |AllRecs(ents[..n - 1])|, |AllRecs(ents[..n])|;
      assert WellFormedEntry(ents[n - 1]);
      EntryPlace(ents, n);
      EntryNotEmpty(ents[n - 1]);
      BackContinues(f, recs, a, b, b, p);
      var r := ReadBack(f, p, 0);
      BackMoves(recs, a, b, r.pos, p);
      assert ents[..n][..n - 1] == ents[..n - 1];
      BackwardFrom(f, ents, n - 1, r.pos);
    }
  }

  lemma ReadBackAtStart(f: seq<byte>, nbytes: nat)
    ensures ReadBack(f, 0, nbytes) == BackEntry([], 0)
  {
  }

  lemma EntryNotEmpty(e: Ent)
    requires WellFormedEntry(e)
    ensures e != [] && |Flat(e)| >= HDR_SIZE
  {
    FlatSplit(e, 0);
    FindableHeader(e[0]);
  }

  lemma BackMoves(recs: seq<seq<byte>>, a: nat, b: nat, q: nat, p: nat)
    requires a < b <= |recs| && Behind(recs, a, q) && Behind(recs, b, p)
    ensures q < p
  {
    hide Flat;
    StartsGrow(recs, a, b - 1);
    if a > 0 {
      FlatPrefix(recs, a - 1);
    }
  }

  lemma {:induction false} ChainIsItself(e: Ent)
    requires WellFormedEntry(e)
    ensures Chain(e) == e && AllWellFormed(e)
  {
    hide StepbackHit, Flat, Chain;
    forall k | 0 <= k < |e|
      ensures Marked(e[k], k < |e| - 1) == e[k]
    {
      assert Findable(e[k]);
      assert Linked(e[k]) == (k < |e| - 1);
      assert e[k][5 := e[k][5]] == e[k];
    }
  }

  // Entry n occupies its place in the file.
  lemma EntryInPlace(f: seq<byte>, ents: seq<Ent>, n: nat)
    requires f == Flat(AllRecs(ents)) && n < |ents|
    requires forall k :: 0 <= k < |ents| ==> WellFormedEntry(ents[k])
    ensures |AllRecs(ents[..n])| <= |AllRecs(ents[..n + 1])| <= |AllRecs(ents)|
    ensures var recs := AllRecs(ents);
            var p, q := StartOf(recs, |AllRecs(ents[..n])|), StartOf(recs, |AllRecs(ents[..n + 1])|);
            p <= q <= |f| && q == p + |Flat(ents[n])| && f[p..q] == Flat(ents[n])
  {
    hide Flat, WellFormedEntry, EntryAt;
    var recs, a, b, e := AllRecs(ents), |AllRecs(ents[..n])|, |AllRecs(ents[..n + 1])|, ents[n];
    RecsPrefix(ents, n);
    RecsPrefix(ents, n + 1);
    assert ents[..n + 1][..n] == ents[..n];
    assert recs[..b] == recs[..a] + e;
    FlatConcat(recs[..a], e);
    FlatConcat(recs[..b], recs[b..]);
    assert recs == recs[..b] + recs[b..];
  }

  // From the start of entry n, forward calls return the entries from n on.
  lemma {:induction false} ForwardFrom(f: seq<byte>, ents: seq<Ent>, n: nat, p: nat)
    requires f == Flat(AllRecs(ents)) && n <= |ents|
    requires forall k :: 0 <= k < |ents| ==> WellFormedEntry(ents[k])
    requires |AllRecs(ents[..n])| <= |AllRecs(ents)|
    requires p == StartOf(AllRecs(ents), |AllRecs(ents[..n])|) <= |f|
    ensures ForwardAll(f, p) == ents[n..]
    decreases |ents| - n
  {
    hide Flat, WellFormedEntry, ReadEntry, Chain, AllRecs, EntryAt;
    if n == |ents| {
      assert ents[..n] == ents;
      WholePrefix(AllRecs(ents));
      NothingToRead(f, p);
    } else {
      var e := ents[n];
      assert WellFormedEntry(e);
      EntryInPlace(f, ents, n);
      EntryNotEmpty(e);
      ChainIsItself(e);
      EntryFits(e);
      ReadChain(f, p, e, 0);
      ForwardFrom(f, ents, n + 1, p + |Flat(e)|);
    }
  }

  lemma WholePrefix(recs: seq<seq<byte>>)
    ensures StartOf(recs, |recs|) == |Flat(recs)| && StartOf(recs, 0) == 0
  {
    assert recs[..|recs|] == recs && recs[..0] == [];
  }

  lemma EntryFits(e: Ent)
    requires WellFormedEntry(e)
    ensures |Flat(e)| <= ACCTENTSIZ
  {
  }

  // The end of the file is a place behind its last record.
  lemma EndIsBehind(f: seq<byte>, recs: seq<seq<byte>>)
    requires f == Flat(recs) && forall k :: 0 <= k < |recs| ==> Findable(recs[k])
    ensures Behind(recs, |recs|, |f|)
  {
    hide Flat, Findable, StartOf, Behind;
    if recs != [] {
      LastEnds(f, recs);
    } else {
      StartIsBehind(f);
    }
  }

  lemma StartIsBehind(f: seq<byte>)
    requires f == Flat([])
    ensures Behind([], 0, |f|)
  {
  }

  lemma LastEnds(f: seq<byte>, recs: seq<seq<byte>>)
    requires f == Flat(recs) && recs != [] && Findable(recs[|recs| - 1])
    ensures Behind(recs, |recs|, |f|)
  {
    hide Flat, Findable, StartOf, StepbackHit, WellFormed;
    RecordInPlace(f, recs, |recs| - 1);
    WholePrefix(recs);
    FindableHeader(recs[|recs| - 1]);
  }

  // Reading a whole file of well-formed entries backward gives the forward entries in reverse, every record of them,
  // although a backward call may end inside the last record of the entry before.
  lemma BackwardReversesForward(f: seq<byte>, ents: seq<Ent>)
    requires f == Flat(AllRecs(ents))
    requires forall k :: 0 <= k < |ents| ==> WellFormedEntry(ents[k])
    ensures ForwardAll(f, 0) == ents
    ensures BackwardAll(f, |f|) == RevAll(ForwardAll(f, 0))
  {
    hide Flat, WellFormedEntry, Findable, ForwardAll, BackwardAll, AllRecs, StartOf, RevAll, Behind;
    WholePrefix(AllRecs(ents));
    NoRecs(ents);
    assert ents[0..] == ents && ents[..|ents|] == ents;
    ForwardFrom(f, ents, 0, 0);
    RecsFindable(ents);
    EndIsBehind(f, AllRecs(ents));
    BackwardFrom(f, ents, |ents|, |f|);
  }

  // ---- The slots ----

  // The slots with the first record of each kind.
  function FirstSlots(recs: seq<seq<byte>>): Slots
    requires forall r :: r in recs ==> |r| >= HDR_SIZE
  {
    if recs == [] then map[] else FirstSlots(recs[1..])[SlotOf(Decode(recs[0]).kind) := recs[0]]
  }

  lemma RevMembers<T>(s: seq<T>)
    ensures forall x :: x in Rev(s) <==> x in s
  {
    forall x | x in s
      ensures x in Rev(s)
    {
      var k :| 0 <= k < |s| && s[k] == x;
      assert Rev(s)[|s| - 1 - k] == x;
    }
  }

  lemma {:induction false} RevTail<T>(s: seq<T>)
    requires s != []
    ensures Rev(s) == Rev(s[1..]) + [s[0]]
  {
  }

  // A backward reader fills each slot with the first record of its kind, a forward reader with the last.
  lemma {:induction false} BackwardSlots(e: seq<seq<byte>>)
    requires forall r :: r in e ==> |r| >= HDR_SIZE
    ensures forall r :: r in Rev(e) ==> |r| >= HDR_SIZE
    ensures SlotsOf(Rev(e)) == FirstSlots(e)
  {
    hide Decode, SlotOf;
    RevMembers(e);
    if e != [] {
      BackwardSlots(e[1..]);
      RevTail(e);
      assert Rev(e)[..|Rev(e)| - 1] == Rev(e[1..]);
    }
  }

  function SlotAt(e: seq<seq<byte>>, i: nat): int
    requires i < |e| && |e[i]| >= HDR_SIZE
  {
    SlotOf(Decode(e[i]).kind)
  }

  // Record i is the first, or the last, of its slot.
  ghost predicate FirstOfSlot(e: seq<seq<byte>>, i: nat)
    requires i < |e| && forall k :: 0 <= k < |e| ==> |e[k]| >= HDR_SIZE
  {
    forall j :: 0 <= j < i ==> SlotAt(e, j) != SlotAt(e, i)
  }

  ghost predicate LastOfSlot(e: seq<seq<byte>>, i: nat)
    requires i < |e| && forall k :: 0 <= k < |e| ==> |e[k]| >= HDR_SIZE
  {
    forall j :: i < j < |e| ==> SlotAt(e, j) != SlotAt(e, i)
  }

  // What the last record of a slot and the first one leave in it
  lemma {:induction false} LastFills(e: seq<seq<byte>>, s: int) returns (i: nat)
    requires (forall k :: 0 <= k < |e| ==> |e[k]| >= HDR_SIZE) && exists k :: 0 <= k < |e| && SlotAt(e, k) == s
    ensures i < |e| && SlotAt(e, i) == s && LastOfSlot(e, i) && s in SlotsOf(e) && SlotsOf(e)[s] == e[i]
    decreases |e|
  {
    hide Decode, SlotOf;
    i := |e| - 1;
    if SlotAt(e, i) != s {
      var before := e[..|e| - 1];
      if k :| 0 <= k < |e| && SlotAt(e, k) == s {
        assert SlotAt(before, k) == s;
      }
      i := LastFills(before, s);
      forall j | i < j < |e|
        ensures SlotAt(e, j) != s
      {
        assert j < |e| - 1 ==> SlotAt(before, j) == SlotAt(e, j);
      }
    }
  }

  lemma {:induction false} FirstFills(e: seq<seq<byte>>, s: int) returns (i: nat)
    requires (forall k :: 0 <= k < |e| ==> |e[k]| >= HDR_SIZE) && exists k :: 0 <= k < |e| && SlotAt(e, k) == s
    ensures i < |e| && SlotAt(e, i) == s && FirstOfSlot(e, i) && s in FirstSlots(e) && FirstSlots(e)[s] == e[i]
    decreases |e|
  {
    hide Decode, SlotOf;
    i := 0;
    if SlotAt(e, 0) != s {
      var rest := e[1..];
      if k :| 0 <= k < |e| && SlotAt(e, k) == s {
        assert SlotAt(rest, k - 1) == s;
      }
      i := FirstFills(rest, s);
      i := i + 1;
      forall j | 0 <= j < i
        ensures SlotAt(e, j) != s
      {
        assert j > 0 ==> SlotAt(rest, j - 1) == SlotAt(e, j);
      }
    }
  }

  lemma {:induction false} FirstFrom(e: seq<seq<byte>>, s: int) returns (k: nat)
    requires (forall k :: 0 <= k < |e| ==> |e[k]| >= HDR_SIZE) && s in FirstSlots(e)
    ensures k < |e| && SlotAt(e, k) == s
    decreases |e|
  {
    hide Decode, SlotOf;
    k := 0;
    if SlotAt(e, 0) != s {
      k := FirstFrom(e[1..], s);
      k := k + 1;
    }
  }

  // The two directions fill the same slots exactly when in every slot the first record and the last one are the same
  // bytes, as they are with one record per slot.
  lemma SlotsAgree(e: seq<seq<byte>>)
    requires forall k :: 0 <= k < |e| ==> |e[k]| >= HDR_SIZE
    ensures SlotsOf(e) == FirstSlots(e) <==>
            forall i, j :: 0 <= i < |e| && 0 <= j < |e| && SlotAt(e, i) == SlotAt(e, j) && FirstOfSlot(e, i) && LastOfSlot(e, j)
                           ==> e[i] == e[j]
  {
    hide Decode, SlotOf, SlotsOf, FirstSlots, SlotAt;
    if SlotsOf(e) == FirstSlots(e) {
      forall i, j | 0 <= i < |e| && 0 <= j < |e| && SlotAt(e, i) == SlotAt(e, j) && FirstOfSlot(e, i) && LastOfSlot(e, j)
        ensures e[i] == e[j]
      {
        var s := SlotAt(e, i);
        var m := FirstFills(e, s);
        var n := LastFills(e, s);
        OnlyFirst(e, i, m);
        OnlyLast(e, j, n);
      }
    }
    if forall i, j :: 0 <= i < |e| && 0 <= j < |e| && SlotAt(e, i) == SlotAt(e, j) && FirstOfSlot(e, i) && LastOfSlot(e, j)
                      ==> e[i] == e[j] {
      forall s | s in SlotsOf(e)
        ensures s in FirstSlots(e) && SlotsOf(e)[s] == FirstSlots(e)[s]
      {
        SameSlot(e, s);
      }
      forall s | s in FirstSlots(e)
        ensures s in SlotsOf(e)
      {
        var k := FirstFrom(e, s);
        var n := LastFills(e, s);
      }
    }
  }

  lemma SameSlot(e: seq<seq<byte>>, s: int)
    requires (forall k :: 0 <= k < |e| ==> |e[k]| >= HDR_SIZE) && s in SlotsOf(e)
    requires forall i, j :: 0 <= i < |e| && 0 <= j < |e| && SlotAt(e, i) == SlotAt(e, j) && FirstOfSlot(e, i) && LastOfSlot(e, j)
                            ==> e[i] == e[j]
    ensures s in FirstSlots(e) && SlotsOf(e)[s] == FirstSlots(e)[s]
  {
    hide Decode, SlotOf, SlotsOf, FirstSlots;
    var k := SlotFrom(e, s);
    assert SlotAt(e, k) == s;
    var m := FirstFills(e, s);
    var n := LastFills(e, s);
  }

  lemma OnlyFirst(e: seq<seq<byte>>, i: nat, m: nat)
    requires (forall k :: 0 <= k < |e| ==> |e[k]| >= HDR_SIZE) && i < |e| && m < |e|
    requires SlotAt(e, i) == SlotAt(e, m) && FirstOfSlot(e, i) && FirstOfSlot(e, m)
    ensures i == m
  {
    hide SlotAt;
  }

  lemma OnlyLast(e: seq<seq<byte>>, i: nat, m: nat)
    requires (forall k :: 0 <= k < |e| ==> |e[k]| >= HDR_SIZE) && i < |e| && m < |e|
    requires SlotAt(e, i) == SlotAt(e, m) && LastOfSlot(e, i) && LastOfSlot(e, m)
    ensures i == m
  {
    hide SlotAt;
  }

  // ---- An entry for which the directions differ ----

  const SOJ_OF_JOB_1: seq<byte> := Marked(Blank(KERNEL_SOJ)[16 := 1], true)
  const SOJ_OF_JOB_0: seq<byte> := Blank(KERNEL_SOJ)

  lemma SojRecords()
    ensures Decode(SOJ_OF_JOB_1).kind == Decode(SOJ_OF_JOB_0).kind == KERNEL_SOJ
    ensures Findable(SOJ_OF_JOB_1) && Findable(SOJ_OF_JOB_0) && Linked(SOJ_OF_JOB_1) && !Linked(SOJ_OF_JOB_0)
    ensures SOJ_OF_JOB_1[16] == 1 && SOJ_OF_JOB_0[16] == 0
  {
    hide WithMore;
    BlankWellFormed(KERNEL_SOJ);
    var a := SOJ_OF_JOB_0[16 := 1];
    assert WithMore(a[5], true) == AMORE by {
      MoreOfNone();
    }
    assert Decode(a) == Decode(SOJ_OF_JOB_0) && SOJ_OF_JOB_1 == a[5 := AMORE];
    ZeroWords(SOJ_OF_JOB_0);
    ZeroWords(SOJ_OF_JOB_1);
  }

  lemma MoreOfNone()
    ensures WithMore(0, true) == AMORE && More(AMORE) && !More(0)
  {
  }

  // Words that start with zero or one do not pass for headers.
  lemma ZeroWords(rec: seq<byte>)
    requires |rec| == SIZE_SOJ && forall k :: HDR_SIZE <= k < |rec| ==> rec[k] == 0 || (k == 16 && rec[k] == 1)
    ensures forall j: nat :: HDR_SIZE <= j < |rec| && j % HDR_SIZE == 0 ==> !StepbackHit(rec, j)
  {
    forall j: nat | HDR_SIZE <= j < |rec| && j % HDR_SIZE == 0
      ensures !StepbackHit(rec, j)
    {
      if j + HDR_SIZE <= |rec| {
        assert rec[j..j + HDR_SIZE][1] == rec[j + 1] == 0;
      }
    }
  }

  // Two start-of-job records in one entry: the slot holds that of job 0 after a forward read, that of job 1 after a backward
  // one.
  lemma DirectionsDiffer()
    ensures var e := [SOJ_OF_JOB_1, SOJ_OF_JOB_0];
            && WellFormedEntry(e)
            && SlotsOf(e) == map[KERNEL_SOJ := SOJ_OF_JOB_0] && SlotsOf(Rev(e)) == map[KERNEL_SOJ := SOJ_OF_JOB_1]
            && SlotsOf(e) != SlotsOf(Rev(e))
  {
    hide Findable, Decode, Blank, Marked;
    SojRecords();
    var e := [SOJ_OF_JOB_1, SOJ_OF_JOB_0];
    PairOf(SOJ_OF_JOB_1, SOJ_OF_JOB_0);
    PairOf(SOJ_OF_JOB_0, SOJ_OF_JOB_1);
    assert SlotsOf(e)[KERNEL_SOJ][16] != SlotsOf(Rev(e))[KERNEL_SOJ][16];
  }

  // An entry of two records of the same kind: its bytes, its reverse, and its slots
  lemma PairOf(a: seq<byte>, b: seq<byte>)
    requires |a| >= HDR_SIZE && |b| >= HDR_SIZE && Decode(a).kind == Decode(b).kind == KERNEL_SOJ
    ensures Flat([a, b]) == a + b && Rev([a, b]) == [b, a] && SlotsOf([a, b]) == map[KERNEL_SOJ := b]
  {
    hide Decode;
    var none: seq<seq<byte>> := [];
    assert [a, b][1..] == [b] && [b][1..] == none && Flat(none) == [] && Flat([b]) == b;
    assert [a, b][..1] == [a] && [a][..0] == none && SlotsOf(none) == map[] && SlotsOf([a]) == map[KERNEL_SOJ := a];
    assert Rev([a]) == [a];
  }
}
