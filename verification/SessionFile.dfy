// A system file the daemon wrote, as csaverify sees it.

module SessionFile {
  import opened Basics
  import opened AcctHeader
  import opened AcctReader
  import opened AcctWriter
  import opened Eop
  import opened DaemonSpec
  import opened DaemonProofs
  import Csaverify
  import VerifySpec
  import RepairProofs

  // A record that is an entry by itself
  ghost predicate Single(b: seq<byte>, kind: int) {
    WellFormed(b) && |b| == StructSize(kind) && Decode(b).kind == kind && Decode(b).flag == 0
  }

  // ac_eventtype; AC_CONFCHG_BOOT, which no daemon writes, is 0
  function EventCode(event: ConfigEvent): byte {
    match event case FileChange => 1 case TurnedOn => 2 case TurnedOff => 3
  }

  // The value of an unsigned field
  function Field(b: seq<byte>, at: nat, size: nat): nat
    requires at + size <= |b|
  {
    FromLittle(b[at..at + size])
  }

  // Bytes that may stand in a file for a record: the fields the record has, where the C structures have them, and times,
  // names and user ids as they come.
  ghost predicate Image(r: Rec, b: seq<byte>) {
    match r
    case Config(event, kdmask, rmask) =>
      && Single(b, KERNEL_CFG)
      && Field(b, 8, 4) == kdmask && Field(b, 12, 4) == rmask && b[24] == EventCode(event)
    case StartOfJob(jid) => Single(b, KERNEL_SOJ) && Field(b, 16, 8) == jid
    case EndOfJob(jid, core, virt) =>
      && Single(b, KERNEL_EOJ)
      && Decode(b[HDR_SIZE..]) == Achead(0xFFFF - ACCT_MAGIC, RevTab(KERNEL_EOJ), KERNEL_EOJ, 0, 0)
      && Field(b, 48, 8) == jid && Field(b, 80, 8) == core && Field(b, 88, 8) == virt
    case Data(bytes) => b == bytes
  }

  ghost predicate EopData(b: seq<byte>) {
    exists t, links :: ValidTask(t) && b == EopBytes(t, links)
  }

  // A daemon handed in these bytes.
  ghost predicate HandedIn(es: Events, b: seq<byte>) {
    0 < |b| <= MAX_WRACCT && exists k :: 0 <= k < |es| && es[k].WrAcct? && es[k].buf == b
  }

  ghost predicate Sound(es: Events, r: Rec) {
    r.Data? ==> EopData(r.bytes) || HandedIn(es, r.bytes)
  }

  // ---- Everything written is sound ----

  ghost predicate AllSound(es: Events, log: Log) {
    forall k :: 0 <= k < |log| ==> Sound(es, log[k])
  }

  lemma HandedInEarlier(es: Events, b: seq<byte>)
    requires es != [] && HandedIn(es[..|es| - 1], b)
    ensures HandedIn(es, b)
  {
    var before := es[..|es| - 1];
    if k :| 0 <= k < |before| && before[k].WrAcct? && before[k].buf == b {
      assert es[k] == before[k];
    }
  }

  lemma SoundEarlier(es: Events, log: Log)
    requires es != [] && AllSound(es[..|es| - 1], log)
    ensures AllSound(es, log)
  {
    hide EopData, HandedIn;
    forall k | 0 <= k < |log| && log[k].Data?
      ensures Sound(es, log[k])
    {
      if HandedIn(es[..|es| - 1], log[k].bytes) {
        HandedInEarlier(es, log[k].bytes);
      }
    }
  }

  lemma NewsSound(es: Events, s: State)
    requires es != [] && ValidState(s) && ValidEvent(es[|es| - 1])
    ensures AllSound(es, News(s, es[|es| - 1]))
  {
    hide EopBytes, OverThresholds, ValidTask, Mask;
    var e := es[|es| - 1];
    if e.Exit? {
      assert EopData(EopBytes(e.task, Enabled(s.tab)));
    }
  }

  // In every run, whatever is written to a system file is a record of the daemon's own, the entry of a process that ended,
  // or what a daemon handed in.
  lemma {:induction false} OutputSound(es: Events)
    requires ValidEvents(es)
    ensures AllSound(es, Output(Run(es)))
    decreases |es|
  {
    hide Step, News, Sound, Run;
    if es == [] {
      NothingYet();
    } else {
      var before := es[..|es| - 1];
      Split(es);
      OutputSound(before);
      SoundEarlier(es, Output(Run(before)));
      NewsSound(es, Run(before));
      OutputGrows(Run(before), es[|es| - 1]);
    }
  }

  lemma NothingYet()
    ensures Output(Run([])) == []
  {
  }

  lemma {:induction false} InFlatten(es: Events, logs: seq<Log>, i: nat)
    requires i < |logs| && AllSound(es, Flatten(logs))
    ensures AllSound(es, logs[i])
    decreases |logs|
  {
    hide Sound;
    var n := |logs| - 1;
    var all, before := Flatten(logs), Flatten(logs[..n]);
    assert all == before + logs[n];
    if i == n {
      forall k | 0 <= k < |logs[n]|
        ensures Sound(es, logs[n][k])
      {
        assert logs[n][k] == all[|before| + k];
      }
    } else {
      forall k | 0 <= k < |before|
        ensures Sound(es, before[k])
      {
        assert before[k] == all[k];
      }
      InFlatten(es, logs[..n], i);
    }
  }

  // ---- Job files ----

  // What may follow the first record of a job's file: whole entries, and what daemons handed in
  ghost predicate WholeEntry(es: Events, r: Rec) {
    r.Data? && ((exists t :: ValidTask(t) && r.bytes == EopBytes(t, ALL_LINKS)) || HandedIn(es, r.bytes))
  }

  ghost predicate JobFile(es: Events, log: Log) {
    log != [] && Is(log[0], TurnedOn) && forall k :: 1 <= k < |log| ==> WholeEntry(es, log[k])
  }

  ghost predicate JobFilesWhole(es: Events, s: State) {
    forall jid :: jid in s.jobs && s.jobs[jid].file.Some? ==> JobFile(es, s.jobs[jid].file.value)
  }

  lemma WholeEarlier(es: Events, s: State)
    requires es != [] && JobFilesWhole(es[..|es| - 1], s)
    ensures JobFilesWhole(es, s)
  {
    hide HandedIn, EopBytes, ValidTask;
    forall jid, k | jid in s.jobs && s.jobs[jid].file.Some? && 1 <= k < |s.jobs[jid].file.value|
      ensures WholeEntry(es, s.jobs[jid].file.value[k])
    {
      var r := s.jobs[jid].file.value[k];
      assert WholeEntry(es[..|es| - 1], r);
      if HandedIn(es[..|es| - 1], r.bytes) {
        HandedInEarlier(es, r.bytes);
      }
    }
  }

  lemma JobFileGrows(es: Events, log: Log, r: Rec)
    requires JobFile(es, log) && WholeEntry(es, r)
    ensures JobFile(es, log + [r])
  {
    hide WholeEntry;
  }

  lemma JobFileStarts(es: Events, r: Rec)
    requires Is(r, TurnedOn)
    ensures JobFile(es, [r])
  {
  }

  lemma JobFilesKept(es: Events, s: State)
    requires es != [] && ValidState(s) && ValidEvent(es[|es| - 1]) && JobFilesWhole(es, s)
    ensures JobFilesWhole(es, Step(s, es[|es| - 1]))
  {
    hide EopBytes, OverThresholds, ValidTask, Mask, TurnOn, TurnOff, AnyOn, Enabled, JobFile, WholeEntry, Set, Get;
    var e := es[|es| - 1];
    if e.Exit? {
      WholeExit(es, e.task);
    }
    if e.WrAcct? && 0 < |e.buf| <= MAX_WRACCT {
      WholeBuffer(es, e.buf);
    }
    JobFileStarts(es, ConfigRec(TurnedOn, s.tab));
    forall log: Log, r: Rec | JobFile(es, log) && WholeEntry(es, r)
      ensures JobFile(es, log + [r])
    {
      JobFileGrows(es, log, r);
    }
  }

  lemma WholeExit(es: Events, t: Task)
    requires ValidTask(t)
    ensures WholeEntry(es, Data(EopBytes(t, ALL_LINKS)))
  {
    hide EopBytes, ValidTask;
  }

  lemma WholeBuffer(es: Events, b: seq<byte>)
    requires HandedIn(es, b)
    ensures WholeEntry(es, Data(b))
  {
  }

  // In every run, a job's open file starts with an ON record and then holds whole entries only: whatever is enabled for
  // the system file, each process of the job left its base record and all three linked ones.
  lemma {:induction false} JobFilesAreWhole(es: Events)
    requires ValidEvents(es)
    ensures JobFilesWhole(es, Run(es))
    decreases |es|
  {
    hide Step, JobFile, Run;
    if es == [] {
      NoJobsYet();
    } else {
      var before := es[..|es| - 1];
      Split(es);
      JobFilesAreWhole(before);
      WholeEarlier(es, Run(before));
      JobFilesKept(es, Run(before));
    }
  }

  // ---- One record ----

  lemma SingleReads(b: seq<byte>, kind: int)
    requires Single(b, kind) && |b| <= ACCTENTSIZ
    ensures ReadEntry(b, 0, 0) == Entry([b], |b|)
  {
    hide ReadEntry, WellFormed;
    assert Chain([b])[0] == Marked(b, false);
    assert Marked(b, false) == b by {
      Unmarked(b);
    }
    assert Chain([b]) == [b];
    assert Flat([b]) == b + Flat([b][1..]) == b;
    assert b[0..|b|] == b;
    ReadChain(b, 0, [b], 0);
  }

  lemma Unmarked(b: seq<byte>)
    requires WellFormed(b) && Decode(b).flag == 0
    ensures Marked(b, false) == b
  {
    assert WithMore(0, false) == 0;
  }

  lemma SingleSize(b: seq<byte>, kind: int)
    requires Single(b, kind)
    ensures |b| == StructSize(kind) <= ACCTENTSIZ
  {
  }

  // Bytes that are one entry csaverify takes as a primary record of its kind of file
  ghost predicate Acceptable(b: seq<byte>, kind: VerifySpec.FileKind) {
    var r := ReadEntry(b, 0, 0);
    r.Entry? && r.next == |b| && VerifySpec.VerifyPrimary(kind, r.recs) == VerifySpec.Valid
  }

  // What the reader makes of the bytes of a record
  lemma ImageIsEntry(es: Events, r: Rec, b: seq<byte>, kind: VerifySpec.FileKind)
    requires Image(r, b) && Sound(es, r) && !kind.sorted
    requires r.Data? && HandedIn(es, b) ==> Acceptable(b, kind)
    ensures Acceptable(b, kind)
  {
    hide ReadEntry, WellFormed, Decode, EopBytes, ValidTask, VerifySpec.VerifyPrimary, HandedIn, Field;
    if r.Data? {
      if !HandedIn(es, b) {
        if t, links :| ValidTask(t) && b == EopBytes(t, links) {
          assert b[0..|b|] == b;
          EopEntryParses(b, 0, t, links);
          EopIsValid(ReadEntry(b, 0, 0).recs, t, links, kind);
        }
      }
    } else {
      var k := if r.Config? then KERNEL_CFG else if r.StartOfJob? then KERNEL_SOJ else KERNEL_EOJ;
      SingleSize(b, k);
      SingleReads(b, k);
      SingleIsValid(b, k, kind);
    }
  }

  // A record of a workload management daemon that is not consolidated may be handed in.
  lemma WkmgIsAcceptable(b: seq<byte>, kind: VerifySpec.FileKind)
    requires Single(b, DAEMON_WKMG) && !VerifySpec.Consolidated(b) && !kind.sorted
    ensures Acceptable(b, kind)
  {
    hide ReadEntry, WellFormed, Decode, VerifySpec.VerifyPrimary;
    SingleSize(b, DAEMON_WKMG);
    SingleReads(b, DAEMON_WKMG);
    SingleIsValid(b, DAEMON_WKMG, kind);
  }

  lemma SingleIsValid(b: seq<byte>, k: int, kind: VerifySpec.FileKind)
    requires Single(b, k) && !kind.sorted
    requires k == KERNEL_CFG || k == KERNEL_SOJ || k == KERNEL_EOJ || (k == DAEMON_WKMG && !VerifySpec.Consolidated(b))
    ensures VerifySpec.VerifyPrimary(kind, [b]) == VerifySpec.Valid
  {
  }

  lemma EopIsValid(recs: seq<seq<byte>>, t: Task, links: Links, kind: VerifySpec.FileKind)
    requires |recs| == |Kinds(links)|
    requires forall k :: 0 <= k < |recs| ==> Holds(t, Kinds(links)[k], recs[k])
    requires forall k :: 0 <= k < |recs| ==> |recs[k]| >= HDR_SIZE
    ensures VerifySpec.VerifyPrimary(kind, recs) == VerifySpec.Valid
  {
    hide Decode;
    assert forall k :: 0 <= k < |recs| ==>
      Kinds(links)[k] in {KERNEL_CSA, KERNEL_MEM, KERNEL_IO, KERNEL_DELAY} && Decode(recs[k]).kind == Kinds(links)[k];
  }

  // ---- A whole file ----

  ghost predicate Images(log: Log, bs: seq<seq<byte>>) {
    |bs| == |log| && forall k :: 0 <= k < |log| ==> Image(log[k], bs[k])
  }

  // The judge has no objection to any of these entries.
  ghost predicate Unobjectionable(bs: seq<seq<byte>>, judge: VerifySpec.Judge) {
    forall k :: 0 <= k < |bs| && ReadEntry(bs[k], 0, 0).Entry? ==> judge(ReadEntry(bs[k], 0, 0).recs) == VerifySpec.NoError
  }

  // Everything a daemon handed in may stand in a file of this kind.
  ghost predicate HandedInAcceptable(es: Events, kind: VerifySpec.FileKind) {
    forall k :: 0 <= k < |es| && es[k].WrAcct? && 0 < |es[k].buf| <= MAX_WRACCT ==> Acceptable(es[k].buf, kind)
  }

  lemma {:induction false} SoundLogIsClean(es: Events, f: seq<byte>, p: nat, log: Log, bs: seq<seq<byte>>,
                                           kind: VerifySpec.FileKind, judge: VerifySpec.Judge)
    requires Images(log, bs) && AllSound(es, log) && Unobjectionable(bs, judge) && !kind.sorted
    requires HandedInAcceptable(es, kind)
    requires p <= |f| && f[p..] == Flat(bs)
    ensures RepairProofs.Clean(f, p, kind, judge)
    decreases |bs|
  {
    hide ReadEntry, Image, Sound, VerifySpec.VerifyPrimary;
    if bs == [] {
      NothingToRead(f, p);
    } else {
      var b := bs[0];
      ImageIsEntry(es, log[0], b, kind);
      assert f[p..p + |b|] == f[p..][..|b|] == b == b[0..0 + |b|];
      EntryIsLocal(b, 0, f, p, 0);
      assert f[p + |b|..] == f[p..][|b|..] == Flat(bs[1..]);
      SoundLogIsClean(es, f, p + |b|, log[1..], bs[1..], kind, judge);
    }
  }

  // Every system file starts with an ON record, so csaverify takes it for an unsorted file.
  lemma StartsUnsorted(log: Log, bs: seq<seq<byte>>)
    requires (InSession(log) || Ended(log)) && Images(log, bs)
    ensures var f := Flat(bs);
            && |f| >= SIZE_CFG && VerifySpec.PrimaryAt(f, 0) && Decode(f[0..HDR_SIZE]).kind == KERNEL_CFG
            && !Csaverify.Sorted(f)
  {
    hide RevTab, Field;
    var f, b := Flat(bs), bs[0];
    assert Is(log[0], TurnedOn);
    assert Image(log[0], b);
    assert f[..|b|] == b;
    assert f[0..HDR_SIZE] == b[..HDR_SIZE] && f[24] == b[24];
    assert Decode(f[0..HDR_SIZE]) == Decode(b);
  }

  // Whatever happened, csaverify scans the bytes of any system file the daemon closed or still has open and reports
  // nothing, provided what daemons handed in was fit for such a file and the entry checks object to none of its entries.
  lemma DaemonFilesVerify(es: Events, log: Log, bs: seq<seq<byte>>, recycled: bool, judge: VerifySpec.Judge)
    requires ValidEvents(es) && HandedInAcceptable(es, VerifySpec.FileKind(false, recycled))
    requires log in Run(es).closed || Run(es).sys == Some(log)
    requires Images(log, bs) && Unobjectionable(bs, judge)
    ensures var v := Csaverify.Verify(Flat(bs), recycled, judge);
            v.Scanned? && v.kind == VerifySpec.FileKind(false, recycled) && v.scan.ranges == []
  {
    hide Run, AllSound, Images, Unobjectionable, VerifySpec.Run, RepairProofs.Clean, Sound, HandedInAcceptable, Acceptable;
    hide VerifySpec.PrimaryAt, Csaverify.Sorted, InSession, Ended;
    var s := Run(es);
    OutputSound(es);
    OutputParts(es, s);
    LogGrammar(es);
    if log in s.closed {
      if i :| 0 <= i < |s.closed| && s.closed[i] == log {
        InFlatten(es, s.closed, i);
      }
    }
    var kind := VerifySpec.FileKind(false, recycled);
    StartsUnsorted(log, bs);
    assert Flat(bs)[0..] == Flat(bs);
    SoundLogIsClean(es, Flat(bs), 0, log, bs, kind, judge);
    RepairProofs.CleanRunReportsNothing(Flat(bs), VerifySpec.START, kind, judge);
  }

  lemma OutputParts(es: Events, s: State)
    requires AllSound(es, Output(s))
    ensures AllSound(es, Flatten(s.closed)) && (s.sys.Some? ==> AllSound(es, s.sys.value))
  {
    hide Sound;
    var a := Flatten(s.closed);
    forall k | 0 <= k < |a|
      ensures Sound(es, a[k])
    {
      assert a[k] == Output(s)[k];
    }
    if s.sys.Some? {
      forall k | 0 <= k < |s.sys.value|
        ensures Sound(es, s.sys.value[k])
      {
        assert s.sys.value[k] == Output(s)[|a| + k];
      }
    }
  }
}
