// Which jobs are recycled, and where in pacct0 their entries go, told by the flags of the job and the options.

module RecycleLaws {
  import opened Basics
  import opened AcctHeader
  import opened AcctReader
  import opened AcctWriter
  import opened RecycleSpec

  // ---- Which jobs ----

  // The bits of aj_flags: job ended (1, 2 or 4), or ended by its age (8) without workload management records (256)
  predicate Ended(flags: nat) {
    || flags % 2 == 1 || (flags / 2) % 2 == 1 || (flags / 4) % 2 == 1
    || ((flags / 8) % 2 == 1 && (flags / 256) % 2 == 0)
  }

  // The user said no, or nothing may be written at all.
  predicate Declined(v: Visit, opts: Options) {
    opts.reportOnly || (opts.report && opts.ask && !v.answer)
  }

  // ---- What a job adds ----

  // The bytes of the entries, but for those with a base record of job 0
  function Passed(es: seq<Entry>): seq<byte> {
    if es == [] then []
    else Passed(es[..|es| - 1]) + if JobZero(es[|es| - 1]) then [] else EntryBytes(es[|es| - 1].slots)
  }

  predicate AnyPassed(es: seq<Entry>) {
    exists k :: 0 <= k < |es| && !JobZero(es[k])
  }

  function CountedFor(section: Section, es: seq<Entry>): nat {
    if es == [] then 0 else CountedFor(section, es[..|es| - 1]) + Counted(section, es[|es| - 1])
  }

  // The first process record of job 0 is number z; there is none when z is their number.
  predicate StopsAt(job: Job, z: nat) {
    && z <= |job.eop| && (forall k :: 0 <= k < z ==> !JobZero(job.eop[k]))
    && (z < |job.eop| ==> JobZero(job.eop[z]))
  }

  // The file after a job: untouched when nothing of it was written; else its bytes are behind a new boot header if the job
  // began after the last uptime that has one, and behind what was there if not.
  predicate Placed(s: Scan, t: Scan, v: Visit, any: bool, b: seq<byte>) {
    var n := |s.periods|;
    var newPeriod := any && v.job.btime > s.stop;
    && t.stop == (if newPeriod then v.up.stop else s.stop)
    && t.early == (if !newPeriod && n == 0 then s.early + b else s.early)
    && t.periods ==
       if newPeriod then (if n == 0 then [] else s.periods[n - 1 := s.periods[n - 1].(len := s.len)])
                     + [Period(v.up.start, v.up.stop, 0, b)]
       else if n == 0 then []
       else s.periods[n - 1 := s.periods[n - 1].(bytes := s.periods[n - 1].bytes + b)]
  }

  // Inside a job that is written: what stands in the file, and what it counts for
  predicate Under(s: Scan, t: Scan, v: Visit, opts: Options, any: bool, b: seq<byte>, c: nat) {
    && t.writeOk && (t.report && opts.ask ==> v.answer)
    && t.firstRec == !any && (!any ==> b == []) && t.counted == c
    && Placed(s, t, v, any, b) && t.len == if any && v.job.btime > s.stop then 0 else s.len
  }

  lemma Regroup(a: seq<byte>, b: seq<byte>, x: seq<byte>)
    ensures a + b + x == a + (b + x)
  {
  }

  // The first entry that is written, and every other one
  lemma PlacedFirst(s: Scan, t: Scan, v: Visit, x: seq<byte>)
    requires Placed(s, t, v, false, []) && t.len == s.len
    ensures var u := Written(if v.job.btime > t.stop then NewPeriod(t, v.up) else t, x);
            Placed(s, u, v, true, x) && u.len == if v.job.btime > s.stop then 0 else s.len
  {
    var n := |s.periods|;
    assert s.early + [] == s.early;
    if n > 0 {
      assert s.periods[n - 1].bytes + [] == s.periods[n - 1].bytes;
      assert t.periods == s.periods;
    }
    assert [] + x == x;
  }

  lemma PlacedNext(s: Scan, t: Scan, v: Visit, b: seq<byte>, x: seq<byte>)
    requires Placed(s, t, v, true, b)
    ensures Placed(s, Written(t, x), v, true, b + x)
  {
    var n := |s.periods|;
    Regroup(s.early, b, x);
    if n > 0 {
      Regroup(s.periods[n - 1].bytes, b, x);
    }
  }

  lemma SameFilePlaced(s: Scan, t: Scan, u: Scan, v: Visit, any: bool, b: seq<byte>)
    requires Placed(s, t, v, any, b) && u.early == t.early && u.periods == t.periods && u.stop == t.stop
    ensures Placed(s, u, v, any, b)
  {
  }

  // An entry of job 0 is passed over, though it counts.
  lemma ZeroUnder(s: Scan, t: Scan, v: Visit, section: Section, e: Entry, opts: Options, any: bool, b: seq<byte>, c: nat)
    requires Under(s, t, v, opts, any, b, c) && section != Eop && JobZero(e)
    ensures var (u, ok) := PreserveOne(t, v.up, v.job, section, e, opts, v.answer);
            ok && Under(s, u, v, opts, any, b, c + Counted(section, e))
  {
    hide JobZero, EntryBytes, Counted, Placed;
    SameFilePlaced(s, t, PreserveOne(t, v.up, v.job, section, e, opts, v.answer).0, v, any, b);
  }

  // What is written depends on the file alone.
  lemma WrittenSame(s: Scan, t: Scan, x: seq<byte>)
    requires s.early == t.early && s.periods == t.periods
    ensures var u, w := Written(s, x), Written(t, x);
            && u.early == w.early && u.periods == w.periods
            && u == s.(early := u.early, periods := u.periods) && w == t.(early := w.early, periods := w.periods)
  {
  }

  lemma NewPeriodSame(s: Scan, t: Scan, up: Uptime)
    requires s.early == t.early && s.periods == t.periods && s.len == t.len
    ensures var u, w := NewPeriod(s, up), NewPeriod(t, up);
            && u.early == w.early && u.periods == w.periods && u.stop == w.stop == up.stop && u.len == w.len == 0
            && u == s.(periods := u.periods, len := 0, stop := up.stop)
  {
  }

  lemma FirstUnder(s: Scan, t: Scan, v: Visit, section: Section, e: Entry, opts: Options, c: nat)
    requires Under(s, t, v, opts, false, [], c) && !JobZero(e)
    ensures var (u, ok) := PreserveOne(t, v.up, v.job, section, e, opts, v.answer);
            ok && Under(s, u, v, opts, true, EntryBytes(e.slots), c + Counted(section, e))
  {
    hide JobZero, EntryBytes, Counted, Placed, Written, NewPeriod;
    var x := EntryBytes(e.slots);
    var t1 := if t.report then t.(report := false, writeOk := if opts.ask then v.answer else t.writeOk) else t;
    NewPeriodSame(t, t1, v.up);
    NewPeriodSame(t1, t, v.up);
    var t2 := if v.job.btime > t.stop then NewPeriod(t, v.up) else t;
    var t3 := (if v.job.btime > t1.stop then NewPeriod(t1, v.up) else t1).(firstRec := false);
    WrittenSame(t2, t3, x);
    PlacedFirst(s, t, v, x);
    SameFilePlaced(s, Written(t2, x), PreserveOne(t, v.up, v.job, section, e, opts, v.answer).0, v, true, x);
  }

  lemma NextUnder(s: Scan, t: Scan, v: Visit, section: Section, e: Entry, opts: Options, b: seq<byte>, c: nat)
    requires Under(s, t, v, opts, true, b, c) && !JobZero(e)
    ensures var (u, ok) := PreserveOne(t, v.up, v.job, section, e, opts, v.answer);
            ok && Under(s, u, v, opts, true, b + EntryBytes(e.slots), c + Counted(section, e))
  {
    hide JobZero, EntryBytes, Counted, Placed, NewPeriod;
    var x := EntryBytes(e.slots);
    PlacedNext(s, t, v, b, x);
    SameFilePlaced(s, Written(t, x), PreserveOne(t, v.up, v.job, section, e, opts, v.answer).0, v, true, b + x);
  }

  lemma OneUnder(s: Scan, t: Scan, v: Visit, section: Section, e: Entry, opts: Options, any: bool, b: seq<byte>, c: nat)
    requires Under(s, t, v, opts, any, b, c) && (section == Eop ==> !JobZero(e))
    ensures var (u, ok) := PreserveOne(t, v.up, v.job, section, e, opts, v.answer);
            ok && Under(s, u, v, opts, any || !JobZero(e), b + if JobZero(e) then [] else EntryBytes(e.slots), c + Counted(section, e))
  {
    hide JobZero, EntryBytes, Counted, PreserveOne, Under;
    if JobZero(e) {
      ZeroUnder(s, t, v, section, e, opts, any, b, c);
      assert b + [] == b;
    } else if any {
      NextUnder(s, t, v, section, e, opts, b, c);
    } else {
      NothingUnder(s, t, v, opts, b, c);
      FirstUnder(s, t, v, section, e, opts, c);
      assert [] + EntryBytes(e.slots) == EntryBytes(e.slots);
    }
  }

  lemma NothingUnder(s: Scan, t: Scan, v: Visit, opts: Options, b: seq<byte>, c: nat)
    requires Under(s, t, v, opts, false, b, c)
    ensures b == []
  {
  }

  lemma {:induction false} SectionUnder(s: Scan, t: Scan, v: Visit, section: Section, es: seq<Entry>, opts: Options, any: bool,
                                        b: seq<byte>, c: nat)
    requires Under(s, t, v, opts, any, b, c) && (section == Eop ==> !exists k :: 0 <= k < |es| && JobZero(es[k]))
    ensures var (u, ok) := PreserveAll(t, v.up, v.job, section, es, opts, v.answer);
            ok && Under(s, u, v, opts, any || AnyPassed(es), b + Passed(es), c + CountedFor(section, es))
    decreases |es|
  {
    hide Under, JobZero, PreserveOne, EntryBytes, Counted;
    if es == [] {
      assert b + [] == b;
    } else {
      var n := |es| - 1;
      var before := es[..n];
      assert forall k :: 0 <= k < n ==> before[k] == es[k];
      SectionUnder(s, t, v, section, before, opts, any, b, c);
      var u := PreserveAll(t, v.up, v.job, section, before, opts, v.answer).0;
      OneUnder(s, u, v, section, es[n], opts, any || AnyPassed(before), b + Passed(before), c + CountedFor(section, before));
      Regroup(b, Passed(before), if JobZero(es[n]) then [] else EntryBytes(es[n].slots));
      AnyPassedLast(es);
    }
  }

  lemma AnyPassedLast(es: seq<Entry>)
    requires es != []
    ensures var n := |es| - 1; AnyPassed(es) <==> AnyPassed(es[..n]) || !JobZero(es[n])
  {
    hide JobZero;
    var n := |es| - 1;
    if AnyPassed(es) && JobZero(es[n]) {
      if k :| 0 <= k < |es| && !JobZero(es[k]) {
        assert es[..n][k] == es[k];
      }
    }
  }

  // The process section gives up at the first record of job 0.
  lemma EopUnder(s: Scan, t: Scan, v: Visit, opts: Options, any: bool, b: seq<byte>, c: nat, z: nat)
    requires Under(s, t, v, opts, any, b, c) && StopsAt(v.job, z)
    ensures var es := v.job.eop[..z];
            var (u, ok) := PreserveAll(t, v.up, v.job, Eop, v.job.eop, opts, v.answer);
            ok == (z == |v.job.eop|) && Under(s, u, v, opts, any || z > 0, b + Passed(es), c + CountedFor(Eop, es))
  {
    hide Under, JobZero, PreserveAll, Passed, CountedFor;
    var es := v.job.eop[..z];
    assert forall k :: 0 <= k < z ==> es[k] == v.job.eop[k];
    SectionUnder(s, t, v, Eop, es, opts, any, b, c);
    assert AnyPassed(es) == (z > 0) by {
      if z > 0 {
        assert !JobZero(es[0]);
      }
    }
    if z < |v.job.eop| {
      GivesUpThere(t, v.up, v.job, v.job.eop, z, opts, v.answer);
    } else {
      assert es == v.job.eop;
    }
  }

  // All that a job adds
  function Added(job: Job, z: nat): seq<byte>
    requires z <= |job.eop|
  {
    Passed(job.wkmg) + Passed(job.eop[..z]) + if z < |job.eop| then [] else Passed(job.rec)
  }

  predicate AddsAny(job: Job, z: nat) {
    AnyPassed(job.wkmg) || z > 0 || (z >= |job.eop| && AnyPassed(job.rec))
  }

  lemma StartUnder(s: Scan, v: Visit, opts: Options)
    requires !Declined(v, opts)
    ensures Under(s, StartJob(s, opts), v, opts, false, [], 0)
  {
    var n := |s.periods|;
    assert s.early + [] == s.early;
    if n > 0 {
      assert s.periods[n - 1].bytes + [] == s.periods[n - 1].bytes;
    }
  }

  lemma JobUnder(s: Scan, v: Visit, opts: Options, z: nat)
    requires !Declined(v, opts) && StopsAt(v.job, z)
    ensures var (t, ok) := PreserveJob(s, v.up, v.job, opts, v.answer);
            && ok == (z == |v.job.eop|)
            && (ok ==> Under(s, t, v, opts, AddsAny(v.job, z), Added(v.job, z),
                             CountedFor(Wkmg, v.job.wkmg) + CountedFor(Eop, v.job.eop) + CountedFor(Rec, v.job.rec)))
            && (!ok ==> exists c: nat :: Under(s, t, v, opts, AddsAny(v.job, z), Added(v.job, z), c))
  {
    hide Under, PreserveAll, Passed, CountedFor, AnyPassed, JobZero;
    var job, s0 := v.job, StartJob(s, opts);
    var a, b, d := Passed(job.wkmg), Passed(job.eop[..z]), Passed(job.rec);
    StartUnder(s, v, opts);
    SectionUnder(s, s0, v, Wkmg, job.wkmg, opts, false, [], 0);
    assert [] + a == a;
    var s1 := PreserveAll(s0, v.up, job, Wkmg, job.wkmg, opts, v.answer).0;
    EopUnder(s, s1, v, opts, AnyPassed(job.wkmg), a, CountedFor(Wkmg, job.wkmg), z);
    var s2 := PreserveAll(s1, v.up, job, Eop, job.eop, opts, v.answer).0;
    if z == |job.eop| {
      assert job.eop[..z] == job.eop;
      SectionUnder(s, s2, v, Rec, job.rec, opts, AnyPassed(job.wkmg) || z > 0, a + b,
                   CountedFor(Wkmg, job.wkmg) + CountedFor(Eop, job.eop));
    } else {
      assert a + b + [] == a + b;
      assert Under(s, s2, v, opts, AddsAny(job, z), Added(job, z), CountedFor(Wkmg, job.wkmg) + CountedFor(Eop, job.eop[..z]));
    }
  }

  // ---- The main results ----

  lemma WantedIs(job: Job)
    ensures Wanted(job) <==> !Ended(job.flags)
  {
  }

  // A job that has ended leaves the scan as it is.
  lemma EndedJobStays(s: Scan, v: Visit, opts: Options)
    requires Ended(v.job.flags)
    ensures ScanJob(s, v, opts) == s
  {
    hide PreserveJob, Wanted, Ended;
    WantedIs(v.job);
  }

  // So does one that is declined, or only reported, as far as the file and the lengths go.
  lemma DeclinedJobStays(s: Scan, v: Visit, opts: Options)
    requires Declined(v, opts) && ValidOptions(opts) && InSections(v.job)
    ensures var t := ScanJob(s, v, opts); t.early == s.early && t.periods == s.periods && t.len == s.len && t.stop == s.stop
  {
    hide ScanJob, InSections;
    OtherJobIdle(s, v, opts);
  }

  // Any other job adds exactly its workload management entries, its process entries before the first of job 0, and, unless
  // there is one, its job entries: behind a new boot header if it began after the last one's uptime, behind what stands in
  // the file if not. Their sizes are added to the length, unless there is an entry of job 0.
  lemma UnfinishedJobGoes(s: Scan, v: Visit, opts: Options, z: nat)
    requires !Ended(v.job.flags) && !Declined(v, opts) && StopsAt(v.job, z)
    ensures var t := ScanJob(s, v, opts);
            && Placed(s, t, v, AddsAny(v.job, z), Added(v.job, z))
            && t.len == (if AddsAny(v.job, z) && v.job.btime > s.stop then 0 else s.len)
                        + if z < |v.job.eop| then 0
                          else CountedFor(Wkmg, v.job.wkmg) + CountedFor(Eop, v.job.eop) + CountedFor(Rec, v.job.rec)
  {
    hide PreserveJob, Passed, CountedFor, AnyPassed, JobZero, Placed;
    JobUnder(s, v, opts, z);
    var t := PreserveJob(s, v.up, v.job, opts, v.answer).0;
    SameFilePlaced(s, t, ScanJob(s, v, opts), v, AddsAny(v.job, z), Added(v.job, z));
  }

  // ---- Entries in bytes ----

  // An entry is one of job 0 when the eight bytes of ac_jid, at offset 48 of its base record, are zero.
  lemma JobZeroIs(e: Entry)
    ensures JobZero(e) <==> 1 in e.slots && |e.slots[1]| >= 56 && FromLittle(e.slots[1][48..56]) == 0
  {
    if KERNEL_CSA in e.slots && |e.slots[KERNEL_CSA]| >= 56 {
      var b := e.slots[KERNEL_CSA][48..56];
      ZeroBytes(b);
      assert forall k :: 48 <= k < 56 ==> e.slots[KERNEL_CSA][k] == b[k - 48];
    }
  }

  lemma {:induction false} ZeroBytes(b: seq<byte>)
    ensures FromLittle(b) == 0 <==> forall k :: 0 <= k < |b| ==> b[k] == 0
    decreases |b|
  {
    if b != [] {
      ZeroBytes(b[1..]);
      assert forall k :: 1 <= k < |b| ==> b[1..][k - 1] == b[k];
    }
  }

  // What an entry counts for: the size in the header of its first record and, for processes and ended jobs, the size of the
  // linked records in the second header of the base record or of the end-of-job record.
  lemma CountedIs(section: Section, e: Entry)
    requires |e.prime| >= 8
    ensures Counted(section, e) ==
            U16(e.prime[6], e.prime[7])
            + match section
              case Wkmg => 0
              case Eop => (if 1 in e.slots && |e.slots[1]| >= 16 then U16(e.slots[1][14], e.slots[1][15]) else 0)
              case Rec => (if 12 in e.slots && |e.slots[12]| >= 16 then U16(e.slots[12][14], e.slots[12][15]) else 0)
  {
  }

  // ---- Boot headers ----

  // Where a boot header says what: event BOOT, the length, and the start and stop times of the uptime
  lemma BootHeaderSays(p: Period, uname: seq<byte>)
    requires |uname| == UNAME_SIZE && p.len < 0x8000_0000_0000_0000
    requires 0 <= p.start < 0x8000_0000_0000_0000 && 0 <= p.stop < 0x8000_0000_0000_0000
    ensures var b := BootHeader(p, uname);
            && b[..8] == [0x4A, 0x31, 0, 12, 16, 0, 216, 0] && b[8..16] == [0, 0, 0, 0, 0, 0, 0, 0]
            && FromLittle(b[16..24]) == p.len && b[24] == 0
            && FromLittle(b[32..40]) == p.start && FromLittle(b[40..48]) == p.stop && b[48..] == uname
  {
    hide Encode, FromLittle, Little;
    var b := BootHeader(p, uname);
    Power256Of8();
    LittleBack(p.len, 8);
    LittleBack(p.start, 8);
    LittleBack(p.stop, 8);
    assert b[16..24] == Bytes8(p.len) && b[32..40] == Bytes8(p.start) && b[40..48] == Bytes8(p.stop);
    CfgHeader();
  }

  lemma CfgHeader()
    ensures Encode(Achead(ACCT_MAGIC, RevTab(KERNEL_CFG), KERNEL_CFG, 0, SIZE_CFG)) == [0x4A, 0x31, 0, 12, 16, 0, 216, 0]
  {
  }
}
