// The verify step of csarun: verify a file, delete what was reported, and start over until nothing is reported.

module Csarun {
  import opened Basics
  import opened AcctHeader
  import opened AcctReader
  import opened AcctWriter
  import opened AcctFile
  import opened VerifySpec
  import opened VerifyProofs
  import opened EditSpec
  import opened RepairProofs
  import opened Csaverify
  import opened Csaedit

  // Return values of the CSAVERIFY function of the script
  const SUCCESS: nat := 0
  const VERIFY_ERRORS: nat := 1
  const EDIT_ERRORS: nat := 2

  datatype Outcome = Outcome(status: nat, file: seq<byte>)

  // Repeat verification and deletion; `edit` is off when csarun was told only to verify.
  function Loop(f: seq<byte>, recycled: bool, judge: Judge, edit: bool): Outcome
    decreases |f|
  {
    match Verify(f, recycled, judge)
    case NoFirstRecord => Outcome(VERIFY_ERRORS, f)
    case BadStart(_) => Outcome(VERIFY_ERRORS, f)
    case Scanned(kind, scan) =>
      if scan.ranges == [] then Outcome(SUCCESS, f)
      else if !edit then Outcome(VERIFY_ERRORS, f)
      else
        DeletionShrinks(f, kind, judge);
        match Edit(f, scan.ranges, 0, [])
        case Aborted(_) => Outcome(EDIT_ERRORS, f)
        case Edited(g) => Loop(g, recycled, judge, edit)
  }

  lemma {:induction false} KeptLength(f: seq<byte>, ranges: seq<Range>, i: nat, hit: nat)
    requires i <= |f|
    ensures |Kept(f, ranges, i)| <= |f| - i
    ensures i <= hit < |f| && Covered(ranges, hit) ==> |Kept(f, ranges, i)| < |f| - i
    decreases |f| - i
  {
    hide Covered, Kept;
    KeptStep(f, ranges, i);
    if i < |f| {
      KeptLength(f, ranges, i + 1, hit);
    }
  }

  lemma KeptStep(f: seq<byte>, ranges: seq<Range>, i: nat)
    requires i <= |f|
    ensures |Kept(f, ranges, i)|
            == if i == |f| then 0 else (if Covered(ranges, i) then 0 else 1) + |Kept(f, ranges, i + 1)|
  {
    hide Covered;
  }

  // Every deletion removes at least one byte, so the script cannot go on for ever.
  lemma DeletionShrinks(f: seq<byte>, kind: FileKind, judge: Judge)
    ensures var ranges := Run(f, START, kind, judge).ranges;
            ranges != [] ==>
              Edit(f, ranges, 0, []) == Edited(Kept(f, ranges, 0)) && |Kept(f, ranges, 0)| < |f|
  {
    hide Run, Edit, Kept, Reads, Bads;
    var s := Run(f, START, kind, judge);
    if s.ranges != [] {
      OffsetsOrderly(f, kind, judge);
      EditKeepsUncovered(f, s.ranges);
      StartInv(f, kind, judge);
      RunEndsFinal(f, START, kind, judge);
      BadsLocs(s.tiles, s.prev);
      var r := s.ranges[0];
      assert r.loc < |f| by {
        assert s.prev == |f| ==> Reads(f, s.prev, kind, judge).Finished?;
        assert r == Range(s.prev, END_OF_FILE) || r in Bads(s.tiles);
      }
      assert r in s.ranges && CoveredBy(r, r.loc);
      KeptLength(f, s.ranges, 0, r.loc);
    }
  }

  // The script never fails in the editor. With editing on it either ends with a file in which the verifier finds
  // nothing to report, or with one whose first record is no longer a readable primary record.
  lemma {:induction false} LoopEnds(f: seq<byte>, recycled: bool, judge: Judge, edit: bool)
    ensures var o := Loop(f, recycled, judge, edit);
            && o.status != EDIT_ERRORS && (!edit ==> o.file == f)
            && (o.status == SUCCESS ==>
                  var v := Verify(o.file, recycled, judge);
                  v.Scanned? && v.scan.ranges == [] && Clean(o.file, 0, v.kind, judge))
            && (o.status == VERIFY_ERRORS && edit ==> !Verify(o.file, recycled, judge).Scanned?)
    decreases |f|
  {
    hide Run, Edit, FirstPrimary, PrimaryAt, Clean;
    var v := Verify(f, recycled, judge);
    if v.Scanned? {
      if v.scan.ranges == [] {
        CleanRunReportsNothing(f, START, v.kind, judge);
      } else if edit {
        DeletionShrinks(f, v.kind, judge);
        LoopEnds(Kept(f, v.scan.ranges, 0), recycled, judge, edit);
      }
    }
  }

  // ---- When one deletion is enough ----

  // The first tile that is kept; the number of tiles when none is
  function FirstGood(tiles: seq<Tile>): (k: nat)
    ensures k <= |tiles| && (k < |tiles| ==> tiles[k].good) && forall i :: 0 <= i < k ==> !tiles[i].good
  {
    if tiles == [] then 0
    else
      var k := FirstGood(tiles[..|tiles| - 1]);
      if k < |tiles| - 1 || tiles[|tiles| - 1].good then k else |tiles|
  }

  // Where the first byte that is kept stands
  function FirstKept(s: Scan): nat {
    if FirstGood(s.tiles) < |s.tiles| then s.tiles[FirstGood(s.tiles)].lo else s.prev
  }

  // A file that starts with what is at p is sorted.
  predicate SortedAt(f: seq<byte>, p: nat) {
    p + HDR_SIZE <= |f| && Decode(f[p..p + HDR_SIZE]).kind == KERNEL_CFG && p + 24 < |f| && f[p + 24] == 0
  }

  // The first record of what is read at p, or of the chain that runs into the end of the file, is there.
  lemma FirstRecordThere(f: seq<byte>, p: nat)
    requires p <= |f| && (ReadEntry(f, p, 0).Entry? || (ReadEntry(f, p, 0).AtEnd? && p < |f|))
    ensures var end := if ReadEntry(f, p, 0).Entry? then ReadEntry(f, p, 0).next else |f|;
            && p + HDR_SIZE <= end <= |f|
            && (PrimaryAt(f, p) && Decode(f[p..p + HDR_SIZE]).kind == KERNEL_CFG ==> p + SIZE_CFG <= end)
  {
    hide ConvertPacct, Decode, ValidType, RevTab;
  }

  // A file that starts with those bytes starts like them.
  lemma StartsAlike(f: seq<byte>, p: nat, g: seq<byte>, n: nat, recycled: bool, judge: Judge)
    requires SameBytes(f, p, g, 0, n) && HDR_SIZE <= n
    requires PrimaryAt(f, p) && Decode(f[p..p + HDR_SIZE]).kind == KERNEL_CFG ==> SIZE_CFG <= n
    ensures Verify(g, recycled, judge).Scanned? <==> PrimaryAt(f, p)
    ensures PrimaryAt(f, p) ==> Verify(g, recycled, judge).kind == FileKind(SortedAt(f, p), recycled)
  {
    hide Run, FirstPrimary, PrimaryHeader, Decode;
    SameBytesPart(f, p, g, 0, n, 0, HDR_SIZE);
    if n >= SIZE_CFG {
      assert f[p..p + n][24] == g[0..n][24];
    }
  }

  lemma {:induction false} NothingGood(f: seq<byte>, tiles: seq<Tile>)
    requires forall i :: 0 <= i < |tiles| ==> !tiles[i].good
    ensures GoodBytes(f, tiles) == []
    decreases |tiles|
  {
    if tiles != [] {
      NothingGood(f, tiles[..|tiles| - 1]);
    }
  }

  // The repaired file starts with these bytes of the original, up to the end of a record at least.
  lemma KeptStart(f: seq<byte>, s: Scan, kind: FileKind, judge: Judge) returns (n: nat)
    requires Final(f, s, kind, judge)
    ensures var g, p := GoodBytes(f, s.tiles) + Tail(f, s, kind, judge), FirstKept(s);
            g != [] ==>
              && SameBytes(f, p, g, 0, n) && HDR_SIZE <= n
              && (PrimaryAt(f, p) && Decode(f[p..p + HDR_SIZE]).kind == KERNEL_CFG ==> SIZE_CFG <= n)
  {
    hide PrimaryAt, ReadEntry, GoodBytes, Tail, Tiled, VerifyPrimary, Decode;
    var g := GoodBytes(f, s.tiles) + Tail(f, s, kind, judge);
    var k := FirstGood(s.tiles);
    NothingGood(f, s.tiles[..k]);
    if k < |s.tiles| {
      var t := s.tiles[k];
      assert t in s.tiles;
      GoodTileInRepaired(f, s.tiles, k, g, s.prev, Tail(f, s, kind, judge));
      FirstRecordThere(f, t.lo);
      n := t.hi - t.lo;
    } else {
      n := |g|;
      if g != [] {
        assert s.tiles[..k] == s.tiles;
        TailStart(f, s, kind, judge);
      }
    }
  }

  lemma TailStart(f: seq<byte>, s: Scan, kind: FileKind, judge: Judge)
    requires Final(f, s, kind, judge) && Tail(f, s, kind, judge) != []
    ensures var n := |f| - s.prev;
            && [] + Tail(f, s, kind, judge) == Tail(f, s, kind, judge)
            && SameBytes(f, s.prev, Tail(f, s, kind, judge), 0, n) && n == |Tail(f, s, kind, judge)| && HDR_SIZE <= n
            && (PrimaryAt(f, s.prev) && Decode(f[s.prev..s.prev + HDR_SIZE]).kind == KERNEL_CFG ==> SIZE_CFG <= n)
  {
    hide PrimaryAt, ReadEntry, Reads, Decode;
    FinishedMeansAtEnd(f, s.prev, kind, judge);
    FirstRecordThere(f, s.prev);
  }

  // How the repaired file starts
  lemma RepairedStart(f: seq<byte>, s: Scan, kind: FileKind, judge: Judge, recycled: bool)
    requires Final(f, s, kind, judge)
    ensures var g := GoodBytes(f, s.tiles) + Tail(f, s, kind, judge);
            && (Verify(g, recycled, judge).Scanned? <==> g != [] && PrimaryAt(f, FirstKept(s)))
            && (Verify(g, recycled, judge).Scanned? ==>
                  Verify(g, recycled, judge).kind == FileKind(SortedAt(f, FirstKept(s)), recycled))
  {
    hide Run, FirstPrimary, PrimaryAt, SortedAt, FirstKept, Final, GoodBytes, Tail;
    var g := GoodBytes(f, s.tiles) + Tail(f, s, kind, judge);
    var n := KeptStart(f, s, kind, judge);
    if g != [] {
      StartsAlike(f, FirstKept(s), g, n, recycled, judge);
    }
  }

  lemma {:induction false} LoopShrinks(f: seq<byte>, recycled: bool, judge: Judge, edit: bool)
    ensures |Loop(f, recycled, judge, edit).file| <= |f|
    decreases |f|
  {
    hide Run, Edit, FirstPrimary, PrimaryAt;
    var v := Verify(f, recycled, judge);
    if v.Scanned? && v.scan.ranges != [] && edit {
      DeletionShrinks(f, v.kind, judge);
      LoopShrinks(Kept(f, v.scan.ranges, 0), recycled, judge, edit);
    }
  }

  // The script is done with a file at once exactly when there is nothing to report.
  lemma DoneAtOnce(g: seq<byte>, recycled: bool, judge: Judge)
    ensures var w := Verify(g, recycled, judge);
            Loop(g, recycled, judge, true) == Outcome(SUCCESS, g) <==> w.Scanned? && w.scan.ranges == []
  {
    hide Run, Edit, FirstPrimary, PrimaryAt;
    var w := Verify(g, recycled, judge);
    if w.Scanned? && w.scan.ranges != [] {
      DeletionShrinks(g, w.kind, judge);
      LoopShrinks(Kept(g, w.scan.ranges, 0), recycled, judge, true);
    }
  }

  // After one deletion the script goes on with the accepted entries and the tail; and that file is the end of it exactly
  // when something is left, what is left starts with a primary header, and every accepted entry is acceptable in a file
  // that starts like this, too. Deleting the boot record of a sorted file, say, makes the rest unsorted.
  lemma OneDeletionIsEnough(f: seq<byte>, recycled: bool, judge: Judge)
    requires Verify(f, recycled, judge).Scanned? && Verify(f, recycled, judge).scan.ranges != []
    ensures var v := Verify(f, recycled, judge);
            var g := GoodBytes(f, v.scan.tiles) + Tail(f, v.scan, v.kind, judge);
            var start := FirstKept(v.scan);
            && Loop(f, recycled, judge, true) == Loop(g, recycled, judge, true)
            && (Loop(f, recycled, judge, true) == Outcome(SUCCESS, g)
                <==> g != [] && PrimaryAt(f, start)
                     && AllFit(f, v.scan.tiles, 0, FileKind(SortedAt(f, start), recycled), judge))
            && (g == [] || !PrimaryAt(f, start) ==> Loop(f, recycled, judge, true) == Outcome(VERIFY_ERRORS, g))
            && (g != [] && PrimaryAt(f, start) && SortedAt(f, start) == v.kind.sorted
                ==> Loop(f, recycled, judge, true) == Outcome(SUCCESS, g))
  {
    hide Run, Edit, FirstPrimary, PrimaryAt, SortedAt, FirstKept, Tail, GoodBytes, AllFit, Clean, Kept;
    var v := Verify(f, recycled, judge);
    var g := GoodBytes(f, v.scan.tiles) + Tail(f, v.scan, v.kind, judge);
    RepairLaw(f, v.kind, judge);
    StartInv(f, v.kind, judge);
    RunEndsFinal(f, START, v.kind, judge);
    RepairedStart(f, v.scan, v.kind, judge, recycled);
    DoneAtOnce(g, recycled, judge);
    var other := FileKind(SortedAt(f, FirstKept(v.scan)), recycled);
    RepairedClean(f, v.scan, v.kind, other, judge, g, 0);
    AcceptedFit(f, v.scan.tiles, v.kind, judge);
    CleanRunReportsNothing(g, START, other, judge);
    NoTiles(f, v.scan.tiles);
  }

  lemma NoTiles(f: seq<byte>, tiles: seq<Tile>)
    ensures GoodBytes(f, tiles[..0]) == []
  {
  }

  // CSAVERIFY, with a fresh verifier and editor process in every round
  method CsaVerify(f: seq<byte>, recycled: bool, judge: Judge, edit: bool) returns (status: nat, file: seq<byte>)
    ensures Outcome(status, file) == Loop(f, recycled, judge, edit)
  {
    hide Run, Edit, FirstPrimary, PrimaryAt;
    file := f;
    while true
      invariant Loop(file, recycled, judge, edit) == Loop(f, recycled, judge, edit)
      decreases |file|
    {
      var input := new AcctFile(file);
      var verifier := new Verifier(input, recycled, judge);
      var exit := verifier.PrcPacct();
      if verifier.nbad == 0 {
        return SUCCESS, file;
      }
      if !edit || verifier.offsets == [] {
        return VERIFY_ERRORS, file;
      }
      DeletionShrinks(file, verifier.Kind(), judge);
      var src := new AcctFile(file);
      var dst := new AcctFile([]);
      var r := DeleteInvalid(src, dst, verifier.offsets);
      if r.Aborted? {
        return EDIT_ERRORS, file;
      }
      file := dst.data;
    }
  }

  // ---- A repaired file can still end in a cut-off entry ----

  // A start-of-job record with the given flags and an empty body.
  function SojRecord(flag: byte): (r: seq<byte>)
    ensures |r| == SIZE_SOJ
  {
    Encode(Achead(ACCT_MAGIC, RevTab(KERNEL_SOJ), KERNEL_SOJ, flag, SIZE_SOJ)) + Zeros(SIZE_SOJ - HDR_SIZE)
  }

  lemma ReadSoj(f: seq<byte>, p: nat, flag: byte, nbytes: nat)
    requires p + SIZE_SOJ <= |f| && f[p..p + SIZE_SOJ] == SojRecord(flag) && nbytes + SIZE_SOJ <= ACCTENTSIZ
    ensures ReadRecord(f, p, ACCTENTSIZ - nbytes) == Record(SojRecord(flag), SIZE_SOJ)
    ensures Decode(SojRecord(flag)) == Achead(ACCT_MAGIC, RevTab(KERNEL_SOJ), KERNEL_SOJ, flag, SIZE_SOJ)
  {
    hide ConvertPacct;
    var rec := SojRecord(flag);
    assert rec[..HDR_SIZE] == Encode(Achead(ACCT_MAGIC, RevTab(KERNEL_SOJ), KERNEL_SOJ, flag, SIZE_SOJ));
    assert f[p..p + HDR_SIZE] == rec[..HDR_SIZE];
    assert Decode(rec) == Decode(rec[..HDR_SIZE]);
  }

  // A rejected entry followed by a record that announces another one the file does not hold: the verifier reports only
  // the first, the editor deletes only the first, and the cut-off record stays in a file that then verifies.
  lemma CutOffEntrySurvives()
    ensures var f := SojRecord(0) + SojRecord(AMORE);
            var judge: Judge := _ => OtherError;
            var kind := FileKind(false, false);
            var s := Run(f, START, kind, judge);
            && s.ranges == [Range(0, SIZE_SOJ)]
            && GoodBytes(f, s.tiles) == []
            && Edit(f, s.ranges, 0, []) == Edited(SojRecord(AMORE))
  {
    hide ReadRecord, Decode, FirstPrimary, SojRecord;
    var f := SojRecord(0) + SojRecord(AMORE);
    var judge: Judge := _ => OtherError;
    var kind := FileKind(false, false);
    ReadSoj(f, 0, 0, 0);
    assert f[SIZE_SOJ..SIZE_SOJ + SIZE_SOJ] == SojRecord(AMORE);
    ReadSoj(f, SIZE_SOJ, AMORE, 0);
    assert ReadEntry(f, 0, 0) == Entry([SojRecord(0)], SIZE_SOJ);
    NoRecordAtEnd(f, SIZE_SOJ);
    assert ReadEntry(f, SIZE_SOJ, 0) == AtEnd;
    assert NextStep(f, 0, 0, kind, judge) == Flag(Range(0, SIZE_SOJ), SIZE_SOJ);
    var s1 := Advance(START, Flag(Range(0, SIZE_SOJ), SIZE_SOJ));
    StepDescends(f, START, kind, judge);
    assert Run(f, s1, kind, judge) == s1;
    assert f[SIZE_SOJ..] == SojRecord(AMORE);
    assert [] + SojRecord(AMORE) == SojRecord(AMORE);
  }

  lemma NoRecordAtEnd(f: seq<byte>, nbytes: nat)
    requires nbytes + HDR_SIZE <= ACCTENTSIZ
    ensures ReadEntry(f, |f|, nbytes) == AtEnd
  {
  }

  // ---- A file that needs two deletions ----

  const BOOT_CFG: seq<byte> := Blank(KERNEL_CFG)
  const CONSOLIDATED: seq<byte> := Blank(DAEMON_WKMG)[16 := 6]
  const LONE_SOJ: seq<byte> := Blank(KERNEL_SOJ)

  // Finds fault with configuration records only
  function RejectCfg(recs: seq<seq<byte>>): Verdict {
    if recs != [] && |recs[0]| >= HDR_SIZE && Decode(recs[0]).kind == KERNEL_CFG then OtherError else NoError
  }

  lemma ReadPlain(f: seq<byte>, p: nat, rec: seq<byte>)
    requires WellFormed(rec) && !More(Decode(rec).flag) && |rec| <= ACCTENTSIZ
    requires p + |rec| <= |f| && f[p..p + |rec|] == rec
    ensures ReadEntry(f, p, 0) == Entry([rec], p + |rec|)
  {
    hide ReadEntry, StructSize;
    assert Marked(rec, false) == rec;
    ChainStep([rec]);
    ReadChain(f, p, [rec], 0);
  }

  lemma BlankPlain(kind: int)
    requires StructSize(kind) >= HDR_SIZE
    ensures WellFormed(Blank(kind)) && Decode(Blank(kind)) == Achead(ACCT_MAGIC, RevTab(kind), kind, 0, StructSize(kind))
    ensures forall k :: HDR_SIZE <= k < |Blank(kind)| ==> Blank(kind)[k] == 0
  {
    BlankWellFormed(kind);
    assert Decode(Blank(kind)) == Decode(Blank(kind)[..HDR_SIZE]);
    assert Blank(kind)[..HDR_SIZE] == Encode(Achead(ACCT_MAGIC, RevTab(kind), kind, 0, StructSize(kind)));
  }

  // What the verifier makes of the three records, wherever they stand
  lemma ReadsCfg(f: seq<byte>, p: nat, kind: FileKind)
    requires SameBytes(f, p, BOOT_CFG, 0, SIZE_CFG)
    ensures Reads(f, p, kind, RejectCfg) == Other(p + SIZE_CFG) && PrimaryAt(f, p) && SortedAt(f, p)
  {
    hide Blank, ReadEntry, WellFormed, VerifyPrimary, Decode;
    BlankPlain(KERNEL_CFG);
    assert BOOT_CFG[0..SIZE_CFG] == BOOT_CFG;
    ReadPlain(f, p, BOOT_CFG);
    HeaderOf(f, p, BOOT_CFG);
    assert f[p..p + SIZE_CFG][24] == f[p + 24];
  }

  // The header at p is that of the record there.
  lemma HeaderOf(f: seq<byte>, p: nat, rec: seq<byte>)
    requires HDR_SIZE <= |rec| && p + |rec| <= |f| && f[p..p + |rec|] == rec
    ensures Decode(f[p..p + HDR_SIZE]) == Decode(rec)
  {
    SliceOfSlice(f, p, |rec|, 0, HDR_SIZE);
  }

  lemma ReadsWkmg(f: seq<byte>, p: nat, kind: FileKind)
    requires SameBytes(f, p, CONSOLIDATED, 0, SIZE_WKMG) && !kind.recycled
    ensures Reads(f, p, kind, RejectCfg) == if kind.sorted then Good(p + SIZE_WKMG) else Other(p + SIZE_WKMG)
    ensures PrimaryAt(f, p) && !SortedAt(f, p)
  {
    hide Blank, ReadEntry, WellFormed, Decode;
    BlankPlain(DAEMON_WKMG);
    ConsolidatedPlain();
    assert CONSOLIDATED[0..SIZE_WKMG] == CONSOLIDATED;
    ReadPlain(f, p, CONSOLIDATED);
    HeaderOf(f, p, CONSOLIDATED);
  }

  lemma ConsolidatedPlain()
    ensures WellFormed(CONSOLIDATED) && Decode(CONSOLIDATED) == Decode(Blank(DAEMON_WKMG)) && Consolidated(CONSOLIDATED)
  {
    hide Blank;
    BlankPlain(DAEMON_WKMG);
  }

  lemma ReadsSoj(f: seq<byte>, p: nat, kind: FileKind)
    requires SameBytes(f, p, LONE_SOJ, 0, SIZE_SOJ)
    ensures Reads(f, p, kind, RejectCfg) == Good(p + SIZE_SOJ) && PrimaryAt(f, p) && Decode(f[p..p + HDR_SIZE]).kind == KERNEL_SOJ
  {
    hide Blank, ReadEntry, WellFormed, Decode;
    BlankPlain(KERNEL_SOJ);
    assert LONE_SOJ[0..SIZE_SOJ] == LONE_SOJ;
    ReadPlain(f, p, LONE_SOJ);
    HeaderOf(f, p, LONE_SOJ);
  }

  lemma Steps(f: seq<byte>, s: Scan, kind: FileKind, judge: Judge)
    requires InFile(f, s)
    ensures var r := Reads(f, s.prev, kind, judge);
            && (r.Finished? ==> Run(f, s, kind, judge) == s)
            && (r.Good? ==>
                  var t := Advance(s, Accept(r.next)); InFile(f, t) && Run(f, s, kind, judge) == Run(f, t, kind, judge))
            && (r.Other? ==>
                  var t := Advance(s, Flag(Range(s.prev, r.next - s.prev), r.next));
                  InFile(f, t) && Run(f, s, kind, judge) == Run(f, t, kind, judge))
  {
    hide Reads, Resync, FirstPrimary;
    var step := NextStep(f, s.prevprev, s.prev, kind, judge);
    if !step.Stop? && !step.Quit? {
      StepDescends(f, s, kind, judge);
    }
  }

  // A faulty boot record, a consolidated workload management record, and a start-of-job record
  lemma FirstRound()
    ensures var f := BOOT_CFG + CONSOLIDATED + LONE_SOJ;
            var v := Verify(f, false, RejectCfg);
            && v.Scanned? && v.kind == FileKind(true, false) && v.scan.ranges == [Range(0, SIZE_CFG)]
            && GoodBytes(f, v.scan.tiles) + Tail(f, v.scan, v.kind, RejectCfg) == CONSOLIDATED + LONE_SOJ
  {
    hide Blank, Reads, PrimaryAt, Run, FirstPrimary, Decode, GoodBytes;
    var f := BOOT_CFG + CONSOLIDATED + LONE_SOJ;
    var n := SIZE_CFG + SIZE_WKMG;
    var t0, t1, t2 := Tile(0, SIZE_CFG, false), Tile(SIZE_CFG, n, true), Tile(n, n + SIZE_SOJ, true);
    Parts(BOOT_CFG, CONSOLIDATED, LONE_SOJ);
    FirstRun(f);
    ThreeTiles(f, t0, t1, t2);
    assert CONSOLIDATED + LONE_SOJ + [] == CONSOLIDATED + LONE_SOJ;
  }

  // Where the parts of three records stand
  lemma Parts(a: seq<byte>, b: seq<byte>, c: seq<byte>)
    ensures var f, n := a + b + c, |a| + |b|;
            && SameBytes(f, 0, a, 0, |a|) && SameBytes(f, |a|, b, 0, |b|) && SameBytes(f, n, c, 0, |c|)
            && f[|a|..n] == b && f[n..n + |c|] == c && f[n + |c|..] == []
  {
  }

  // Flagging the first record of a file, and accepting the next one, two, ...
  lemma FlagFirst(f: seq<byte>, n: nat, kind: FileKind, judge: Judge)
    requires Reads(f, 0, kind, judge) == Other(n)
    ensures var t := Scan(0, n, [Range(0, n)], [Tile(0, n, false)]);
            InFile(f, t) && Run(f, START, kind, judge) == Run(f, t, kind, judge)
  {
    hide Reads, Run;
    Steps(f, START, kind, judge);
    assert [] + [Range(0, n)] == [Range(0, n)] && [] + [Tile(0, n, false)] == [Tile(0, n, false)];
  }

  lemma AcceptNext(f: seq<byte>, s: Scan, next: nat, tiles: seq<Tile>, kind: FileKind, judge: Judge)
    requires InFile(f, s) && Reads(f, s.prev, kind, judge) == Good(next) && tiles == s.tiles + [Tile(s.prev, next, true)]
    ensures var t := Scan(s.prev, next, s.ranges, tiles); InFile(f, t) && Run(f, s, kind, judge) == Run(f, t, kind, judge)
  {
    hide Reads, Run;
    Steps(f, s, kind, judge);
  }

  lemma FirstRun(f: seq<byte>)
    requires SameBytes(f, 0, BOOT_CFG, 0, SIZE_CFG) && SameBytes(f, SIZE_CFG, CONSOLIDATED, 0, SIZE_WKMG)
    requires SameBytes(f, SIZE_CFG + SIZE_WKMG, LONE_SOJ, 0, SIZE_SOJ) && |f| == SIZE_CFG + SIZE_WKMG + SIZE_SOJ
    ensures PrimaryAt(f, 0) && SortedAt(f, 0)
    ensures var n := SIZE_CFG + SIZE_WKMG;
            Run(f, START, FileKind(true, false), RejectCfg)
            == Scan(n, n + SIZE_SOJ, [Range(0, SIZE_CFG)],
                    [Tile(0, SIZE_CFG, false), Tile(SIZE_CFG, n, true), Tile(n, n + SIZE_SOJ, true)])
  {
    hide Blank, Reads, PrimaryAt, Run, FirstPrimary, Decode, SortedAt, SameBytes;
    var kind := FileKind(true, false);
    ReadsCfg(f, 0, kind);
    ReadsWkmg(f, SIZE_CFG, kind);
    ReadsSoj(f, SIZE_CFG + SIZE_WKMG, kind);
    var n := SIZE_CFG + SIZE_WKMG;
    var flagged := [Range(0, SIZE_CFG)];
    var t0, t1, t2 := Tile(0, SIZE_CFG, false), Tile(SIZE_CFG, n, true), Tile(n, n + SIZE_SOJ, true);
    FlagFirst(f, SIZE_CFG, kind, RejectCfg);
    AcceptNext(f, Scan(0, SIZE_CFG, flagged, [t0]), n, [t0, t1], kind, RejectCfg);
    AcceptNext(f, Scan(SIZE_CFG, n, flagged, [t0, t1]), n + SIZE_SOJ, [t0, t1, t2], kind, RejectCfg);
    Steps(f, Scan(n, n + SIZE_SOJ, flagged, [t0, t1, t2]), kind, RejectCfg);
  }

  lemma ThreeTiles(f: seq<byte>, t0: Tile, t1: Tile, t2: Tile)
    requires !t0.good && t1.good && t2.good && t1.lo <= t1.hi <= |f| && t2.lo <= t2.hi <= |f|
    ensures GoodBytes(f, [t0, t1, t2]) == f[t1.lo..t1.hi] + f[t2.lo..t2.hi]
  {
    assert [t0, t1, t2][..2] == [t0, t1] && [t0, t1][..1] == [t0] && [t0][..0] == [];
    assert GoodBytes(f, [t0]) == [] && GoodBytes(f, [t0, t1]) == f[t1.lo..t1.hi];
  }

  lemma SecondRound()
    ensures var f := CONSOLIDATED + LONE_SOJ;
            var v := Verify(f, false, RejectCfg);
            && v.Scanned? && v.kind == FileKind(false, false) && v.scan.ranges == [Range(0, SIZE_WKMG)]
            && GoodBytes(f, v.scan.tiles) + Tail(f, v.scan, v.kind, RejectCfg) == LONE_SOJ
  {
    hide Blank, Reads, PrimaryAt, Run, FirstPrimary, Decode, GoodBytes;
    var f := CONSOLIDATED + LONE_SOJ;
    var n := SIZE_WKMG;
    Parts(CONSOLIDATED, LONE_SOJ, []);
    assert f + [] == f;
    SecondRun(f);
    TwoTiles(f, Tile(0, n, false), Tile(n, n + SIZE_SOJ, true));
    assert LONE_SOJ + [] == LONE_SOJ;
  }

  lemma TwoTiles(f: seq<byte>, t0: Tile, t1: Tile)
    requires !t0.good && t1.good && t1.lo <= t1.hi <= |f|
    ensures GoodBytes(f, [t0, t1]) == f[t1.lo..t1.hi]
  {
    assert [t0, t1][..1] == [t0] && [t0][..0] == [];
    assert GoodBytes(f, [t0]) == [];
  }

  lemma SecondRun(f: seq<byte>)
    requires SameBytes(f, 0, CONSOLIDATED, 0, SIZE_WKMG) && SameBytes(f, SIZE_WKMG, LONE_SOJ, 0, SIZE_SOJ)
    requires |f| == SIZE_WKMG + SIZE_SOJ
    ensures PrimaryAt(f, 0) && !SortedAt(f, 0)
    ensures var n := SIZE_WKMG;
            Run(f, START, FileKind(false, false), RejectCfg)
            == Scan(n, n + SIZE_SOJ, [Range(0, n)], [Tile(0, n, false), Tile(n, n + SIZE_SOJ, true)])
  {
    hide Blank, Reads, PrimaryAt, Run, FirstPrimary, Decode, SortedAt, SameBytes;
    var kind := FileKind(false, false);
    ReadsWkmg(f, 0, kind);
    ReadsSoj(f, SIZE_WKMG, kind);
    var n := SIZE_WKMG;
    var flagged := [Range(0, n)];
    var t0, t1 := Tile(0, n, false), Tile(n, n + SIZE_SOJ, true);
    FlagFirst(f, n, kind, RejectCfg);
    AcceptNext(f, Scan(0, n, flagged, [t0]), n + SIZE_SOJ, [t0, t1], kind, RejectCfg);
    Steps(f, Scan(n, n + SIZE_SOJ, flagged, [t0, t1]), kind, RejectCfg);
  }

  lemma ThirdRound()
    ensures var v := Verify(LONE_SOJ, false, RejectCfg); v.Scanned? && v.scan.ranges == []
  {
    hide Blank, Reads, PrimaryAt, Run, FirstPrimary, Decode;
    var kind := FileKind(false, false);
    ReadsSoj(LONE_SOJ, 0, kind);
    Steps(LONE_SOJ, START, kind, RejectCfg);
    assert [] + [Tile(0, SIZE_SOJ, true)] == [Tile(0, SIZE_SOJ, true)];
    Steps(LONE_SOJ, Scan(0, SIZE_SOJ, [], [Tile(0, SIZE_SOJ, true)]), kind, RejectCfg);
  }

  // The boot record goes in the first round, and with it the file is no longer a sorted one: the consolidated record,
  // accepted in the first round, goes in the second.
  lemma TwoRoundsNeeded()
    ensures var f, g := BOOT_CFG + CONSOLIDATED + LONE_SOJ, CONSOLIDATED + LONE_SOJ;
            && Verify(f, false, RejectCfg).Scanned? && Verify(f, false, RejectCfg).scan.ranges == [Range(0, SIZE_CFG)]
            && Edit(f, [Range(0, SIZE_CFG)], 0, []) == Edited(g)
            && Verify(g, false, RejectCfg).Scanned? && Verify(g, false, RejectCfg).scan.ranges == [Range(0, SIZE_WKMG)]
            && Loop(f, false, RejectCfg, true) == Outcome(SUCCESS, LONE_SOJ)
  {
    hide Blank, Verify, Run, Edit, GoodBytes, Tail, Loop;
    var f, g := BOOT_CFG + CONSOLIDATED + LONE_SOJ, CONSOLIDATED + LONE_SOJ;
    FirstRound();
    SecondRound();
    ThirdRound();
    OneDeletionIsEnough(f, false, RejectCfg);
    OneDeletionIsEnough(g, false, RejectCfg);
    DoneAtOnce(LONE_SOJ, false, RejectCfg);
    RepairOf(f, false, RejectCfg);
  }

  lemma RepairOf(f: seq<byte>, recycled: bool, judge: Judge)
    requires Verify(f, recycled, judge).Scanned? && Verify(f, recycled, judge).scan.ranges != []
    ensures var v := Verify(f, recycled, judge);
            Edit(f, v.scan.ranges, 0, []) == Edited(GoodBytes(f, v.scan.tiles) + Tail(f, v.scan, v.kind, judge))
  {
    hide Run, Edit, GoodBytes, Tail, PrimaryAt, FirstPrimary;
    RepairLaw(f, Verify(f, recycled, judge).kind, judge);
  }
}
