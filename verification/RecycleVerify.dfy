// What csaverify says of the file csarecy writes: which file it takes it for, and when it has nothing to report.

module RecycleVerify {
  import opened Basics
  import opened AcctHeader
  import opened AcctReader
  import opened AcctWriter
  import opened RecycleSpec
  import VerifySpec
  import Csaverify
  import RepairProofs

  type Judge = VerifySpec.Judge
  type FileKind = VerifySpec.FileKind

  // ---- Files made of whole entries ----

  // From p on, entries that can be read, up to the end
  ghost predicate WholeFrom(f: seq<byte>, p: nat)
    requires p <= |f|
    decreases |f| - p
  {
    p == |f| || (ReadEntry(f, p, 0).Entry? && WholeFrom(f, ReadEntry(f, p, 0).next))
  }

  ghost predicate Whole(b: seq<byte>) {
    WholeFrom(b, 0)
  }

  // Entries that are acceptable in a file of this kind
  ghost predicate Good(b: seq<byte>, kind: FileKind, judge: Judge) {
    RepairProofs.GoodUpTo(b, 0, |b|, kind, judge)
  }

  lemma ReadsAlike(f: seq<byte>, p: nat, g: seq<byte>, q: nat, kind: FileKind, judge: Judge)
    requires p <= |f| && q <= |g| && ReadEntry(f, p, 0).Entry?
    requires ReadEntry(g, q, 0) == EntResult.Entry(ReadEntry(f, p, 0).recs, q + ReadEntry(f, p, 0).next - p)
    ensures VerifySpec.Reads(g, q, kind, judge).Good? <==> VerifySpec.Reads(f, p, kind, judge).Good?
    ensures VerifySpec.Reads(f, p, kind, judge).Good? ==>
              && VerifySpec.Reads(f, p, kind, judge).next == ReadEntry(f, p, 0).next
              && VerifySpec.Reads(g, q, kind, judge).next == ReadEntry(g, q, 0).next
  {
    hide ReadEntry, VerifySpec.VerifyPrimary;
  }

  // Whole entries are read the same in a longer file, which goes on behind them.
  lemma {:induction false} GoesOn(f: seq<byte>, p: nat, g: seq<byte>, q: nat, kind: FileKind, judge: Judge)
    requires p <= |f| && SameBytes(f, p, g, q, |f| - p) && WholeFrom(f, p)
    ensures var end := q + |f| - p;
            && (WholeFrom(g, q) <==> WholeFrom(g, end))
            && (RepairProofs.GoodUpTo(g, q, |g|, kind, judge)
                <==> RepairProofs.GoodUpTo(f, p, |f|, kind, judge) && RepairProofs.GoodUpTo(g, end, |g|, kind, judge))
    decreases |f| - p
  {
    hide ReadEntry, VerifySpec.Reads;
    if p < |f| {
      var next := ReadEntry(f, p, 0).next;
      NextInside(f, p);
      SameBytesPart(f, p, g, q, |f| - p, 0, next - p);
      EntryIsLocal(f, p, g, q, 0);
      ReadsAlike(f, p, g, q, kind, judge);
      SameBytesPart(f, p, g, q, |f| - p, next - p, |f| - next);
      GoesOn(f, next, g, q + next - p, kind, judge);
      NotAtEnd(g, q);
    }
  }

  lemma NextInside(f: seq<byte>, p: nat)
    requires p <= |f| && ReadEntry(f, p, 0).Entry?
    ensures p + HDR_SIZE <= ReadEntry(f, p, 0).next <= |f|
  {
  }

  lemma NotAtEnd(g: seq<byte>, q: nat)
    requires q <= |g| && ReadEntry(g, q, 0).Entry?
    ensures q < |g|
  {
    NextInside(g, q);
  }

  lemma GoodConcat(a: seq<byte>, b: seq<byte>, kind: FileKind, judge: Judge)
    requires Whole(a) && Whole(b)
    ensures Whole(a + b) && (Good(a + b, kind, judge) <==> Good(a, kind, judge) && Good(b, kind, judge))
  {
    hide WholeFrom, RepairProofs.GoodUpTo;
    var f := a + b;
    EndIsGood(f, kind, judge);
    EndIsGood(a, kind, judge);
    assert a[0..|a|] == f[0..0 + |a|] && b[0..|b|] == f[|a|..|a| + |b|];
    GoesOn(a, 0, f, 0, kind, judge);
    GoesOn(b, 0, f, |a|, kind, judge);
  }

  lemma EndIsGood(f: seq<byte>, kind: FileKind, judge: Judge)
    ensures WholeFrom(f, |f|) && RepairProofs.GoodUpTo(f, |f|, |f|, kind, judge)
  {
  }

  lemma NothingGood(kind: FileKind, judge: Judge)
    ensures Whole([]) && Good([], kind, judge)
  {
  }

  // ---- Entries ----

  // An entry somebody wrote and csarecy could read
  predicate Fit(e: RecycleSpec.Entry) {
    Writable(e.slots) && FitsBuffer(e.slots)
  }

  // The entry would be accepted in a file of this kind.
  ghost predicate GoodEntry(e: RecycleSpec.Entry, kind: FileKind, judge: Judge) {
    VerifySpec.Reads(EntryBytes(e.slots), 0, kind, judge).Good?
  }

  lemma EntryIsWhole(e: RecycleSpec.Entry, kind: FileKind, judge: Judge)
    requires Fit(e)
    ensures Whole(EntryBytes(e.slots)) && (Good(EntryBytes(e.slots), kind, judge) <==> GoodEntry(e, kind, judge))
  {
    hide ReadEntry, Writable, FitsBuffer, VerifySpec.Reads, Present, Chain;
    var b := EntryBytes(e.slots);
    assert b[0..0 + |b|] == b;
    EntryRoundTrip(b, 0, e.slots);
    OneEntry(b, kind, judge);
  }

  // Bytes that are one entry
  lemma OneEntry(b: seq<byte>, kind: FileKind, judge: Judge)
    requires ReadEntry(b, 0, 0).Entry? && ReadEntry(b, 0, 0).next == |b|
    ensures Whole(b) && (Good(b, kind, judge) <==> VerifySpec.Reads(b, 0, kind, judge).Good?)
  {
    hide ReadEntry, VerifySpec.Reads;
    NextInside(b, 0);
    ReadsAlike(b, 0, b, 0, kind, judge);
    EndIsGood(b, kind, judge);
  }

  // A boot header is one entry, acceptable if the checks of its contents say so.
  lemma HeaderIsWhole(p: Period, uname: seq<byte>, kind: FileKind, judge: Judge)
    requires |uname| == UNAME_SIZE
    ensures var b := BootHeader(p, uname);
            && Whole(b) && (Good(b, kind, judge) <==> judge([b]) == VerifySpec.NoError)
            && Decode(b) == Achead(ACCT_MAGIC, RevTab(KERNEL_CFG), KERNEL_CFG, 0, SIZE_CFG) && b[24] == 0
  {
    hide ReadEntry, BootHeader;
    var b := BootHeader(p, uname);
    HeaderStart(p, uname);
    HeaderReads(b);
    OneEntry(b, kind, judge);
  }

  lemma HeaderStart(p: Period, uname: seq<byte>)
    requires |uname| == UNAME_SIZE
    ensures var b := BootHeader(p, uname);
            Decode(b) == Achead(ACCT_MAGIC, RevTab(KERNEL_CFG), KERNEL_CFG, 0, SIZE_CFG) && b[24] == 0
  {
    hide Encode, Decode, Bytes8;
    var b := BootHeader(p, uname);
    var h := Achead(ACCT_MAGIC, RevTab(KERNEL_CFG), KERNEL_CFG, 0, SIZE_CFG);
    assert b[..HDR_SIZE] == Encode(h);
    DecodeStart(b);
    EncodeBack(h);
    assert b[24..32] == Zeros(8);
  }

  lemma EncodeBack(h: Achead)
    requires Encodable(h)
    ensures Decode(Encode(h)) == h
  {
  }

  lemma HeaderReads(b: seq<byte>)
    requires |b| == SIZE_CFG && Decode(b) == Achead(ACCT_MAGIC, RevTab(KERNEL_CFG), KERNEL_CFG, 0, SIZE_CFG)
    ensures ReadEntry(b, 0, 0) == EntResult.Entry([b], |b|)
  {
    hide ConvertPacct;
    DecodeStart(b);
    assert b[0..HDR_SIZE] == b[..HDR_SIZE] && b[0..|b|] == b;
  }

  // ---- The parts of the file ----

  ghost predicate WholeParts(early: seq<byte>, periods: seq<Period>) {
    Whole(early) && forall k :: 0 <= k < |periods| ==> Whole(periods[k].bytes)
  }

  ghost predicate GoodParts(early: seq<byte>, periods: seq<Period>, kind: FileKind, judge: Judge) {
    Good(early, kind, judge) && forall k :: 0 <= k < |periods| ==> Good(periods[k].bytes, kind, judge)
  }

  lemma WrittenParts(s: Scan, b: seq<byte>, kind: FileKind, judge: Judge)
    requires WholeParts(s.early, s.periods) && Whole(b)
    ensures var t := Written(s, b);
            && WholeParts(t.early, t.periods)
            && (GoodParts(t.early, t.periods, kind, judge) <==> GoodParts(s.early, s.periods, kind, judge) && Good(b, kind, judge))
  {
    hide Whole, Good;
    var t := Written(s, b);
    if s.periods == [] {
      GoodConcat(s.early, b, kind, judge);
    } else {
      var n := |s.periods| - 1;
      GoodConcat(s.periods[n].bytes, b, kind, judge);
      assert t.periods[n].bytes == s.periods[n].bytes + b;
      SameButLast(s.early, s.periods, t.periods, kind, judge);
    }
  }

  lemma SameButLast(early: seq<byte>, s: seq<Period>, t: seq<Period>, kind: FileKind, judge: Judge)
    requires s != [] && |t| == |s| && forall k :: 0 <= k < |s| - 1 ==> t[k] == s[k]
    ensures var n := |s| - 1;
            && (WholeParts(early, s) && Whole(t[n].bytes) ==> WholeParts(early, t))
            && (GoodParts(early, t, kind, judge) && Good(s[n].bytes, kind, judge)
                <==> GoodParts(early, s, kind, judge) && Good(t[n].bytes, kind, judge))
  {
    hide Whole, Good;
  }

  lemma PatchedParts(early: seq<byte>, periods: seq<Period>, len: nat, kind: FileKind, judge: Judge)
    ensures WholeParts(early, Patched(periods, len)) <==> WholeParts(early, periods)
    ensures GoodParts(early, Patched(periods, len), kind, judge) <==> GoodParts(early, periods, kind, judge)
  {
    hide Whole, Good;
    var p := Patched(periods, len);
    assert |p| == |periods| && forall k :: 0 <= k < |p| ==> p[k].bytes == periods[k].bytes;
  }

  lemma NewPeriodParts(s: Scan, up: Uptime, kind: FileKind, judge: Judge)
    requires WholeParts(s.early, s.periods)
    ensures var t := NewPeriod(s, up);
            && WholeParts(t.early, t.periods)
            && (GoodParts(t.early, t.periods, kind, judge) <==> GoodParts(s.early, s.periods, kind, judge))
  {
    hide Whole, Good;
    PatchedParts(s.early, s.periods, s.len, kind, judge);
    NothingGood(kind, judge);
    var p, t := Patched(s.periods, s.len), NewPeriod(s, up).periods;
    assert |t| == |p| + 1 && t[|p|].bytes == [] && forall k :: 0 <= k < |p| ==> t[k] == p[k];
  }

  // ---- One job ----

  // Inside a kept job: nothing more to ask, or the answer is yes
  predicate Open(s: Scan, opts: Options, answer: bool) {
    s.writeOk && (s.report && opts.ask ==> answer)
  }

  // Nothing is in front of the first boot header, which is written before anything of a job of positive start time.
  predicate Clear(s: Scan) {
    s.early == [] && (s.periods == [] ==> s.firstRec && s.stop == 0)
  }

  lemma RecParts(s: Scan, up: Uptime, job: Job, section: Section, e: RecycleSpec.Entry, opts: Options, answer: bool,
                 kind: FileKind, judge: Judge)
    requires Open(s, opts, answer) && WholeParts(s.early, s.periods) && !JobZero(e) && Fit(e)
    ensures var (t, ok) := PreserveOne(s, up, job, section, e, opts, answer);
            && ok && Open(t, opts, answer) && WholeParts(t.early, t.periods)
            && (GoodParts(t.early, t.periods, kind, judge)
                <==> GoodParts(s.early, s.periods, kind, judge) && GoodEntry(e, kind, judge))
            && (Clear(s) && job.btime > 0 ==> Clear(t) && t.periods != [])
  {
    hide EntryBytes, Counted, WholeParts, GoodParts, Whole, Good, GoodEntry, JobZero, Fit, NewPeriod, Written;
    var s1 := if s.report then s.(report := false, writeOk := if opts.ask then answer else s.writeOk) else s;
    var s2 := if !s1.firstRec then s1
              else (if job.btime > s1.stop then NewPeriod(s1, up) else s1).(firstRec := false);
    if s1.firstRec && job.btime > s1.stop {
      NewPeriodParts(s1, up, kind, judge);
      NewPeriodKeeps(s1, up);
    }
    EntryIsWhole(e, kind, judge);
    WrittenParts(s2, EntryBytes(e.slots), kind, judge);
    WrittenTally(s2, EntryBytes(e.slots));
    WrittenEarly(s2, EntryBytes(e.slots));
  }

  lemma WrittenEarly(s: Scan, b: seq<byte>)
    ensures s.periods != [] ==> Written(s, b).early == s.early
  {
  }

  ghost predicate AllFit(es: seq<RecycleSpec.Entry>) {
    forall e :: e in es ==> Fit(e)
  }

  ghost predicate AllGood(es: seq<RecycleSpec.Entry>, kind: FileKind, judge: Judge) {
    forall e :: e in es ==> GoodEntry(e, kind, judge)
  }

  lemma AllGoodPush(es: seq<RecycleSpec.Entry>, kind: FileKind, judge: Judge)
    requires es != []
    ensures AllGood(es, kind, judge) <==> AllGood(es[..|es| - 1], kind, judge) && GoodEntry(es[|es| - 1], kind, judge)
    ensures AllFit(es) <==> AllFit(es[..|es| - 1]) && Fit(es[|es| - 1])
  {
    hide GoodEntry, Fit;
    assert forall e :: e in es <==> e in es[..|es| - 1] || e == es[|es| - 1];
  }

  lemma {:induction false} SectionParts(s: Scan, up: Uptime, job: Job, section: Section, es: seq<RecycleSpec.Entry>, opts: Options,
                                        answer: bool, kind: FileKind, judge: Judge)
    requires Open(s, opts, answer) && WholeParts(s.early, s.periods) && NoJobZero(es) && AllFit(es)
    ensures var (t, ok) := PreserveAll(s, up, job, section, es, opts, answer);
            && ok && Open(t, opts, answer) && WholeParts(t.early, t.periods)
            && (GoodParts(t.early, t.periods, kind, judge)
                <==> GoodParts(s.early, s.periods, kind, judge) && AllGood(es, kind, judge))
            && (Clear(s) && job.btime > 0 ==> Clear(t) && (t.periods != [] <==> s.periods != [] || es != []))
    decreases |es|
  {
    hide Open, WholeParts, GoodParts, GoodEntry, Fit, JobZero, PreserveOne, AllGood, AllFit;
    if es != [] {
      AllGoodPush(es, kind, judge);
      SectionParts(s, up, job, section, es[..|es| - 1], opts, answer, kind, judge);
      var s1 := PreserveAll(s, up, job, section, es[..|es| - 1], opts, answer).0;
      RecParts(s1, up, job, section, es[|es| - 1], opts, answer, kind, judge);
    } else {
      NoneGood(es, kind, judge);
    }
  }

  lemma NoneGood(es: seq<RecycleSpec.Entry>, kind: FileKind, judge: Judge)
    requires es == []
    ensures AllGood(es, kind, judge)
  {
  }

  // What preserve_job reaches
  function Reached(job: Job): seq<RecycleSpec.Entry> {
    job.wkmg + ReachedEop(job) + ReachedRec(job)
  }

  lemma ReachedGood(job: Job, kind: FileKind, judge: Judge)
    ensures AllGood(Reached(job), kind, judge) <==>
              AllGood(job.wkmg, kind, judge) && AllGood(ReachedEop(job), kind, judge) && AllGood(ReachedRec(job), kind, judge)
    ensures AllFit(Reached(job)) <==> AllFit(job.wkmg) && AllFit(ReachedEop(job)) && AllFit(ReachedRec(job))
    ensures Reached(job) != [] <==> Writes(job)
  {
    hide GoodEntry, Fit, ReachedEop, ReachedRec;
    assert forall e :: e in Reached(job) <==> e in job.wkmg || e in ReachedEop(job) || e in ReachedRec(job);
  }

  lemma EopParts(s: Scan, v: Visit, opts: Options, kind: FileKind, judge: Judge)
    requires Open(s, opts, v.answer) && WholeParts(s.early, s.periods) && AllFit(ReachedEop(v.job))
    ensures var (t, ok) := PreserveAll(s, v.up, v.job, Eop, v.job.eop, opts, v.answer);
            && ok == !GivesUp(v.job) && Open(t, opts, v.answer) && WholeParts(t.early, t.periods)
            && (GoodParts(t.early, t.periods, kind, judge)
                <==> GoodParts(s.early, s.periods, kind, judge) && AllGood(ReachedEop(v.job), kind, judge))
            && (Clear(s) && v.job.btime > 0 ==> Clear(t) && (t.periods != [] <==> s.periods != [] || ReachedEop(v.job) != []))
  {
    hide Open, WholeParts, GoodParts, AllGood, AllFit, PreserveAll, FirstZero, JobZero, Clear;
    var z := FirstZero(v.job.eop);
    SectionParts(s, v.up, v.job, Eop, ReachedEop(v.job), opts, v.answer, kind, judge);
    if z < |v.job.eop| {
      GivesUpThere(s, v.up, v.job, v.job.eop, z, opts, v.answer);
    } else {
      assert v.job.eop[..z] == v.job.eop;
    }
  }

  lemma KeptParts(s: Scan, v: Visit, opts: Options, kind: FileKind, judge: Judge)
    requires WholeParts(s.early, s.periods) && Kept(v, opts) && InSections(v.job) && AllFit(Reached(v.job))
    ensures var t := ScanJob(s, v, opts);
            && WholeParts(t.early, t.periods)
            && (GoodParts(t.early, t.periods, kind, judge)
                <==> GoodParts(s.early, s.periods, kind, judge) && AllGood(Reached(v.job), kind, judge))
            && (Clear(s.(firstRec := true)) && v.job.btime > 0 ==>
                  Clear(t.(firstRec := true)) && (t.periods != [] <==> s.periods != [] || Writes(v.job)))
  {
    hide WholeParts, GoodParts, AllGood, AllFit, PreserveAll, InSections, Wanted, FirstZero, NoJobZero, Reached, Writes, GivesUp;
    var s0 := StartJob(s, opts);
    var job := v.job;
    ReachedGood(job, kind, judge);
    NoJobZeroOutside(job);
    SectionParts(s0, v.up, job, Wkmg, job.wkmg, opts, v.answer, kind, judge);
    var s1 := PreserveAll(s0, v.up, job, Wkmg, job.wkmg, opts, v.answer).0;
    EopParts(s1, v, opts, kind, judge);
    var s2 := PreserveAll(s1, v.up, job, Eop, job.eop, opts, v.answer).0;
    WritesMeans(job);
    if !GivesUp(job) {
      SectionParts(s2, v.up, job, Rec, job.rec, opts, v.answer, kind, judge);
    } else {
      NoneGood(ReachedRec(job), kind, judge);
    }
  }

  lemma WritesMeans(job: Job)
    ensures Writes(job) <==> job.wkmg != [] || ReachedEop(job) != [] || ReachedRec(job) != []
    ensures ReachedRec(job) == if GivesUp(job) then [] else job.rec
  {
  }

  // ---- Whole runs ----

  // Jobs as csabuild leaves them, with entries somebody wrote
  ghost predicate ReadableRun(vs: seq<Visit>, opts: Options) {
    forall k :: 0 <= k < |vs| ==> InSections(vs[k].job) && (Kept(vs[k], opts) ==> AllFit(Reached(vs[k].job)))
  }

  // Every entry of a kept job that is reached is acceptable in a file of this kind.
  ghost predicate AcceptableRun(vs: seq<Visit>, opts: Options, kind: FileKind, judge: Judge) {
    forall k :: 0 <= k < |vs| && Kept(vs[k], opts) ==> AllGood(Reached(vs[k].job), kind, judge)
  }

  // Jobs that are kept began after the epoch.
  ghost predicate AllStarted(vs: seq<Visit>, opts: Options) {
    forall k :: 0 <= k < |vs| && Kept(vs[k], opts) ==> vs[k].job.btime > 0
  }

  predicate SomeWritten(vs: seq<Visit>, opts: Options) {
    exists k :: 0 <= k < |vs| && Kept(vs[k], opts) && Writes(vs[k].job)
  }

  lemma RunPush(vs: seq<Visit>, opts: Options, kind: FileKind, judge: Judge)
    requires vs != []
    ensures var before, v := vs[..|vs| - 1], vs[|vs| - 1];
            && (ReadableRun(vs, opts) <==> ReadableRun(before, opts) && InSections(v.job) && (Kept(v, opts) ==> AllFit(Reached(v.job))))
            && (AcceptableRun(vs, opts, kind, judge)
                <==> AcceptableRun(before, opts, kind, judge) && (Kept(v, opts) ==> AllGood(Reached(v.job), kind, judge)))
            && (AllStarted(vs, opts) <==> AllStarted(before, opts) && (Kept(v, opts) ==> v.job.btime > 0))
            && (SomeWritten(vs, opts) <==> SomeWritten(before, opts) || (Kept(v, opts) && Writes(v.job)))
  {
    hide InSections, Kept, AllFit, AllGood, Reached, Writes;
    var before := vs[..|vs| - 1];
    assert forall k :: 0 <= k < |before| ==> vs[k] == before[k];
  }

  lemma {:induction false} RunParts(vs: seq<Visit>, opts: Options, kind: FileKind, judge: Judge)
    requires ReadableRun(vs, opts) && ValidOptions(opts)
    ensures var s := ScanAll(vs, opts);
            && WholeParts(s.early, s.periods)
            && (GoodParts(s.early, s.periods, kind, judge) <==> AcceptableRun(vs, opts, kind, judge))
            && (AllStarted(vs, opts) ==> Clear(s.(firstRec := true)) && (s.periods != [] <==> SomeWritten(vs, opts)))
    decreases |vs|
  {
    hide WholeParts, GoodParts, AcceptableRun, ReadableRun, AllStarted, SomeWritten, ScanJob, Kept, InSections, AllFit, AllGood, Reached,
         Writes;
    if vs == [] {
      NothingScanned(opts, kind, judge);
    } else {
      var v := vs[|vs| - 1];
      RunPush(vs, opts, kind, judge);
      RunParts(vs[..|vs| - 1], opts, kind, judge);
      var s := ScanAll(vs[..|vs| - 1], opts);
      if Kept(v, opts) {
        KeptParts(s, v, opts, kind, judge);
      } else {
        OtherJobIdle(s, v, opts);
      }
    }
  }

  lemma NothingScanned(opts: Options, kind: FileKind, judge: Judge)
    ensures WholeParts([], []) && GoodParts([], [], kind, judge)
    ensures AcceptableRun([], opts, kind, judge) && AllStarted([], opts) && !SomeWritten([], opts)
  {
    NothingGood(kind, judge);
  }

  // ---- The file ----

  // The checks of the contents accept every boot header.
  ghost predicate HeadersAccepted(periods: seq<Period>, uname: seq<byte>, judge: Judge)
    requires |uname| == UNAME_SIZE
  {
    forall k :: 0 <= k < |periods| ==> judge([BootHeader(periods[k], uname)]) == VerifySpec.NoError
  }

  lemma {:induction false} LayoutGood(early: seq<byte>, periods: seq<Period>, uname: seq<byte>, kind: FileKind, judge: Judge)
    requires |uname| == UNAME_SIZE && WholeParts(early, periods)
    ensures var f := early + Layout(periods, uname);
            Whole(f) && (Good(f, kind, judge) <==> GoodParts(early, periods, kind, judge) && HeadersAccepted(periods, uname, judge))
    decreases |periods|
  {
    hide Whole, Good, BootHeader;
    if periods == [] {
      assert early + Layout(periods, uname) == early;
    } else {
      var n := |periods| - 1;
      var before := periods[..n];
      LayoutGood(early, before, uname, kind, judge);
      HeaderIsWhole(periods[n], uname, kind, judge);
      var g, header := early + Layout(before, uname), BootHeader(periods[n], uname);
      GoodConcat(g, header, kind, judge);
      GoodConcat(g + header, periods[n].bytes, kind, judge);
      assert early + Layout(periods, uname) == (g + header) + periods[n].bytes;
      PartsPush(early, periods, uname, kind, judge);
    }
  }

  lemma PartsPush(early: seq<byte>, periods: seq<Period>, uname: seq<byte>, kind: FileKind, judge: Judge)
    requires |uname| == UNAME_SIZE && periods != []
    ensures var n := |periods| - 1;
            && (GoodParts(early, periods, kind, judge)
                <==> GoodParts(early, periods[..n], kind, judge) && Good(periods[n].bytes, kind, judge))
            && (HeadersAccepted(periods, uname, judge)
                <==> HeadersAccepted(periods[..n], uname, judge) && judge([BootHeader(periods[n], uname)]) == VerifySpec.NoError)
  {
    hide Good, BootHeader;
  }

  lemma WholeIsClean(f: seq<byte>, p: nat, kind: FileKind, judge: Judge)
    requires p <= |f| && WholeFrom(f, p)
    ensures RepairProofs.Clean(f, p, kind, judge) <==> RepairProofs.GoodUpTo(f, p, |f|, kind, judge)
    decreases |f| - p
  {
    hide ReadEntry;
    if p < |f| {
      NextInside(f, p);
      NotFinished(f, p, kind, judge);
      WholeIsClean(f, ReadEntry(f, p, 0).next, kind, judge);
    }
  }

  lemma NotFinished(f: seq<byte>, p: nat, kind: FileKind, judge: Judge)
    requires p <= |f| && ReadEntry(f, p, 0).Entry?
    ensures !VerifySpec.Reads(f, p, kind, judge).Finished?
    ensures VerifySpec.Reads(f, p, kind, judge).Good? ==> VerifySpec.Reads(f, p, kind, judge).next == ReadEntry(f, p, 0).next
  {
    hide ReadEntry, VerifySpec.VerifyPrimary;
  }

  // Whatever was recycled and answered: if csaverify takes the file for one of some kind, it reports nothing exactly when
  // the checks accept the boot headers and every entry that was kept would be accepted in a file of that kind.
  lemma RecycledVerifies(vs: seq<Visit>, opts: Options, uname: seq<byte>, recycled: bool, judge: Judge)
    requires ReadableRun(vs, opts) && ValidOptions(opts) && |uname| == UNAME_SIZE
    ensures var v := Csaverify.Verify(Pacct0(vs, opts, uname), recycled, judge);
            v.Scanned? ==>
              (v.scan.ranges == [] <==>
                 HeadersAccepted(Finished(vs, opts), uname, judge) && AcceptableRun(vs, opts, v.kind, judge))
  {
    hide WholeParts, GoodParts, AcceptableRun, ReadableRun, ScanAll, Layout, BootHeader, HeadersAccepted, VerifySpec.Run,
         VerifySpec.PrimaryAt, VerifySpec.FirstPrimary, RepairProofs.Clean, Csaverify.Sorted, Patched;
    var f, s := Pacct0(vs, opts, uname), ScanAll(vs, opts);
    var v := Csaverify.Verify(f, recycled, judge);
    if v.Scanned? {
      RunParts(vs, opts, v.kind, judge);
      PatchedParts(s.early, s.periods, s.len, v.kind, judge);
      LayoutGood(s.early, Finished(vs, opts), uname, v.kind, judge);
      WholeIsClean(f, 0, v.kind, judge);
      RepairProofs.CleanRunReportsNothing(f, VerifySpec.START, v.kind, judge);
    }
  }

  // When the jobs that are kept began after the epoch, the file starts with a boot header: csaverify takes it for a
  // sorted file, and so reports nothing exactly when the entries would be accepted in the sorted file they come from.
  lemma RecycledIsSorted(vs: seq<Visit>, opts: Options, uname: seq<byte>, recycled: bool, judge: Judge)
    requires ReadableRun(vs, opts) && ValidOptions(opts) && |uname| == UNAME_SIZE
    requires AllStarted(vs, opts) && SomeWritten(vs, opts)
    ensures var v := Csaverify.Verify(Pacct0(vs, opts, uname), recycled, judge);
            && v.Scanned? && v.kind == VerifySpec.FileKind(true, recycled)
            && (v.scan.ranges == [] <==>
                  HeadersAccepted(Finished(vs, opts), uname, judge)
                  && AcceptableRun(vs, opts, VerifySpec.FileKind(true, recycled), judge))
  {
    hide WholeParts, GoodParts, AcceptableRun, ReadableRun, ScanAll, Layout, BootHeader, HeadersAccepted, VerifySpec.Run, Finished,
         VerifySpec.FirstPrimary, AllStarted, SomeWritten, Decode;
    var f, s := Pacct0(vs, opts, uname), ScanAll(vs, opts);
    RecycledVerifies(vs, opts, uname, recycled, judge);
    RunParts(vs, opts, VerifySpec.FileKind(true, recycled), judge);
    FinishedSize(vs, opts);
    var ps := Finished(vs, opts);
    BodyFits(s.early, ps, 0, uname);
    HeaderStart(ps[0], uname);
    StartsSorted(f, BootHeader(ps[0], uname));
  }

  lemma FinishedSize(vs: seq<Visit>, opts: Options)
    ensures |Finished(vs, opts)| == |ScanAll(vs, opts).periods|
  {
    hide ScanAll;
  }

  lemma StartsSorted(f: seq<byte>, b: seq<byte>)
    requires |b| == SIZE_CFG <= |f| && f[0..SIZE_CFG] == b && b[24] == 0
    requires Decode(b) == Achead(ACCT_MAGIC, RevTab(KERNEL_CFG), KERNEL_CFG, 0, SIZE_CFG)
    ensures VerifySpec.PrimaryAt(f, 0) && Decode(f[0..HDR_SIZE]).kind == KERNEL_CFG && Csaverify.Sorted(f)
  {
    assert f[0..HDR_SIZE] == b[..HDR_SIZE] && f[24] == b[24];
    DecodeStart(b);
  }
}
