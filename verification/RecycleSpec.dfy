// Recycling the entries of unfinished jobs into pacct0 (csa/cmd/csarecy.c): what every run writes, and the lengths that
// are patched into its boot headers.

module RecycleSpec {
  import opened Basics
  import opened AcctHeader
  import opened AcctReader
  import opened AcctWriter

  // ---- The sorted file ----

  // An entry as it was read: its primary record and its slots
  datatype Entry = Entry(prime: seq<byte>, slots: Slots)

  datatype Section = Wkmg | Eop | Rec

  datatype Job = Job(flags: nat, btime: int, wkmg: seq<Entry>, eop: seq<Entry>, rec: seq<Entry>)

  datatype Uptime = Uptime(start: int, stop: int, jobs: seq<Job>)

  predicate FlagSet(flags: nat, bit: nat)
    requires bit > 0
  {
    flags / bit % 2 == 1
  }

  const END_OF_JOB_C: nat := 1
  const END_OF_JOB_T: nat := 2
  const END_OF_JOB_B: nat := 4
  const END_OF_JOB_I: nat := 8
  const WKMG_IN_JOB: nat := 256

  // Only jobs that have not terminated are recycled.
  predicate Wanted(job: Job) {
    && !FlagSet(job.flags, END_OF_JOB_B) && !FlagSet(job.flags, END_OF_JOB_C) && !FlagSet(job.flags, END_OF_JOB_T)
    && (FlagSet(job.flags, WKMG_IN_JOB) || !FlagSet(job.flags, END_OF_JOB_I))
  }

  const JID_OFFSET: nat := 48

  // The entry has a base record of job 0.
  predicate JobZero(e: Entry) {
    KERNEL_CSA in e.slots && |e.slots[KERNEL_CSA]| >= JID_OFFSET + 8
    && forall k :: JID_OFFSET <= k < JID_OFFSET + 8 ==> e.slots[KERNEL_CSA][k] == 0
  }

  function HeaderSize(rec: seq<byte>): nat {
    if |rec| >= HDR_SIZE then Decode(rec).size else 0
  }

  // Size field of the second header
  function SecondSize(rec: seq<byte>): nat {
    if |rec| >= 2 * HDR_SIZE then Decode(rec[HDR_SIZE..]).size else 0
  }

  // What preserve_job adds for an entry
  function Counted(section: Section, e: Entry): nat {
    HeaderSize(e.prime)
    + match section
      case Wkmg => 0
      case Eop => if KERNEL_CSA in e.slots then SecondSize(e.slots[KERNEL_CSA]) else 0
      case Rec => if KERNEL_EOJ in e.slots then SecondSize(e.slots[KERNEL_EOJ]) else 0
  }

  // The headers of an entry add up to the bytes that are written for it.
  predicate Consistent(section: Section, e: Entry) {
    Counted(section, e) == |EntryBytes(e.slots)|
  }

  // Process records are in the process section, all of them with a base record, and nowhere else.
  predicate InSections(job: Job) {
    && (forall e :: e in job.eop ==> KERNEL_CSA in e.slots)
    && (forall e :: e in job.wkmg ==> KERNEL_CSA !in e.slots)
    && (forall e :: e in job.rec ==> KERNEL_CSA !in e.slots)
  }

  // ---- pacct0 ----

  // A boot header and the bytes up to the next one
  datatype Period = Period(start: int, stop: int, len: nat, bytes: seq<byte>)

  function Bytes8(n: int): (b: seq<byte>)
    ensures |b| == 8
  {
    Little(n % 0x1_0000_0000_0000_0000, 8)
  }

  const UPTIMELEN_OFFSET: nat := 16
  const UNAME_SIZE: nat := 168

  // A boot header: event BOOT, no masks, the length in place
  function BootHeader(p: Period, uname: seq<byte>): (b: seq<byte>)
    requires |uname| == UNAME_SIZE
    ensures |b| == SIZE_CFG
  {
    Encode(Achead(ACCT_MAGIC, RevTab(KERNEL_CFG), KERNEL_CFG, 0, SIZE_CFG)) + Zeros(8) + Bytes8(p.len) + Zeros(8)
    + Bytes8(p.start) + Bytes8(p.stop) + uname
  }

  function Layout(periods: seq<Period>, uname: seq<byte>): seq<byte>
    requires |uname| == UNAME_SIZE
  {
    if periods == [] then []
    else
      var last := periods[|periods| - 1];
      Layout(periods[..|periods| - 1], uname) + BootHeader(last, uname) + last.bytes
  }

  // ---- A run ----

  // The file (what precedes the first boot header, and the periods), Up_hdr.ac_uptimelen, uptime_stop, and the
  // variables of preserve_job. In the file, the last period's header still has length 0.
  datatype Scan = Scan(early: seq<byte>, periods: seq<Period>, len: nat, stop: int,
                       firstRec: bool, writeOk: bool, report: bool, counted: nat)

  const NOTHING: Scan := Scan([], [], 0, 0, true, true, false, 0)

  // Options -r, -A and -R
  datatype Options = Options(report: bool, ask: bool, reportOnly: bool)

  // What the command line leaves: -A and -R both report, and exclude each other.
  predicate ValidOptions(opts: Options) {
    (opts.ask || opts.reportOnly ==> opts.report) && !(opts.ask && opts.reportOnly)
  }

  // Patch the length into the last boot header.
  function Patched(periods: seq<Period>, len: nat): seq<Period> {
    if periods == [] then [] else periods[|periods| - 1 := periods[|periods| - 1].(len := len)]
  }

  // Uptime_record(TRUE)
  function NewPeriod(s: Scan, up: Uptime): Scan {
    s.(periods := Patched(s.periods, s.len) + [Period(up.start, up.stop, 0, [])], len := 0, stop := up.stop)
  }

  function Written(s: Scan, b: seq<byte>): Scan {
    if s.periods == [] then s.(early := s.early + b)
    else
      var last := s.periods[|s.periods| - 1];
      s.(periods := s.periods[|s.periods| - 1 := last.(bytes := last.bytes + b)])
  }

  // preserve_rec; `answer` is the user's for this job
  function PreserveRec(s: Scan, up: Uptime, job: Job, e: Entry, opts: Options, answer: bool): (Scan, bool) {
    if JobZero(e) then (s, false)
    else
      var s1 := if s.report then s.(report := false, writeOk := if opts.ask then answer else s.writeOk) else s;
      if !s1.writeOk then (s1, true)
      else
        var s2 := if !s1.firstRec then s1
                  else (if job.btime > s1.stop then NewPeriod(s1, up) else s1).(firstRec := false);
        (Written(s2, EntryBytes(e.slots)), true)
  }

  // One entry of a section; false when preserve_job gives up
  function PreserveOne(s: Scan, up: Uptime, job: Job, section: Section, e: Entry, opts: Options, answer: bool): (Scan, bool) {
    var (s1, ok) := PreserveRec(s, up, job, e, opts, answer);
    if !ok && section == Eop then (s1, false)
    else (if s1.writeOk then s1.(counted := s1.counted + Counted(section, e)) else s1, true)
  }

  function PreserveAll(s: Scan, up: Uptime, job: Job, section: Section, es: seq<Entry>, opts: Options, answer: bool): (Scan, bool) {
    if es == [] then (s, true)
    else
      var (s1, ok) := PreserveAll(s, up, job, section, es[..|es| - 1], opts, answer);
      if !ok then (s1, false) else PreserveOne(s1, up, job, section, es[|es| - 1], opts, answer)
  }

  function StartJob(s: Scan, opts: Options): Scan {
    s.(report := opts.report, firstRec := true, writeOk := !opts.reportOnly, counted := 0)
  }

  // preserve_job: workload management, process and job records
  function PreserveJob(s: Scan, up: Uptime, job: Job, opts: Options, answer: bool): (Scan, bool) {
    var (s1, ok1) := PreserveAll(StartJob(s, opts), up, job, Wkmg, job.wkmg, opts, answer);
    if !ok1 then (s1, false)
    else
      var (s2, ok2) := PreserveAll(s1, up, job, Eop, job.eop, opts, answer);
      if !ok2 then (s2, false) else PreserveAll(s2, up, job, Rec, job.rec, opts, answer)
  }

  // A job of the sorted file, with the user's answer
  datatype Visit = Visit(up: Uptime, job: Job, answer: bool)

  function ScanJob(s: Scan, v: Visit, opts: Options): Scan {
    if !Wanted(v.job) then s
    else
      var (s1, ok) := PreserveJob(s, v.up, v.job, opts, v.answer);
      if ok then s1.(len := s1.len + s1.counted) else s1
  }

  function ScanAll(vs: seq<Visit>, opts: Options): Scan {
    if vs == [] then NOTHING else ScanJob(ScanAll(vs[..|vs| - 1], opts), vs[|vs| - 1], opts)
  }

  // The periods of the finished file: the last header is patched as well.
  function Finished(vs: seq<Visit>, opts: Options): seq<Period> {
    Patched(ScanAll(vs, opts).periods, ScanAll(vs, opts).len)
  }

  function Pacct0(vs: seq<Visit>, opts: Options, uname: seq<byte>): seq<byte>
    requires |uname| == UNAME_SIZE
  {
    ScanAll(vs, opts).early + Layout(Finished(vs, opts), uname)
  }

  // ---- What a job contributes ----

  // The job goes into the file.
  predicate Kept(v: Visit, opts: Options) {
    Wanted(v.job) && !opts.reportOnly && (opts.report && opts.ask ==> v.answer)
  }

  // Where the first process record of job 0 is; preserve_job gives up there.
  function FirstZero(es: seq<Entry>): (z: nat)
    ensures z <= |es| && NoJobZero(es[..z]) && (z < |es| ==> JobZero(es[z]))
  {
    if es == [] then 0
    else
      var before := es[..|es| - 1];
      var z := FirstZero(before);
      assert before[..z] == es[..z];
      if z < |before| || JobZero(es[|es| - 1]) then z else |es|
  }

  predicate NoJobZero(es: seq<Entry>) {
    forall k :: 0 <= k < |es| ==> !JobZero(es[k])
  }

  predicate GivesUp(job: Job) {
    FirstZero(job.eop) < |job.eop|
  }

  // The process and job records that are reached
  function ReachedEop(job: Job): seq<Entry> {
    job.eop[..FirstZero(job.eop)]
  }

  function ReachedRec(job: Job): seq<Entry> {
    if GivesUp(job) then [] else job.rec
  }

  // Every entry that is written is counted for what it is written as.
  predicate Sound(job: Job) {
    Measured(Wkmg, job.wkmg) && Measured(Eop, ReachedEop(job)) && Measured(Rec, ReachedRec(job))
  }

  predicate Measured(section: Section, es: seq<Entry>) {
    forall k :: 0 <= k < |es| ==> Consistent(section, es[k])
  }

  function SectionBytes(es: seq<Entry>): seq<byte> {
    if es == [] then [] else SectionBytes(es[..|es| - 1]) + EntryBytes(es[|es| - 1].slots)
  }

  function JobBytes(job: Job): seq<byte> {
    SectionBytes(job.wkmg) + SectionBytes(ReachedEop(job)) + SectionBytes(ReachedRec(job))
  }

  // ---- Lengths ----

  function Bodies(periods: seq<Period>): seq<byte> {
    if periods == [] then [] else Bodies(periods[..|periods| - 1]) + periods[|periods| - 1].bytes
  }

  function Lens(periods: seq<Period>): nat {
    if periods == [] then 0 else Lens(periods[..|periods| - 1]) + periods[|periods| - 1].len
  }

  // All bytes but the boot headers, in order
  function Payload(s: Scan): seq<byte> {
    s.early + Bodies(s.periods)
  }

  predicate NotLong(periods: seq<Period>) {
    forall k :: 0 <= k < |periods| ==> periods[k].len <= |periods[k].bytes|
  }

  // No length exceeds what it counts; `len` and `counted` stand for the last header's.
  predicate Fair(s: Scan) {
    NotLong(Patched(s.periods, s.len + s.counted))
  }

  // How many bytes behind boot headers are in none of the lengths
  function Shortfall(s: Scan): int {
    if s.periods == [] then 0 else |Bodies(s.periods)| - Lens(Patched(s.periods, s.len + s.counted))
  }

  lemma BodiesPush(periods: seq<Period>, p: Period)
    ensures Bodies(periods + [p]) == Bodies(periods) + p.bytes && Lens(periods + [p]) == Lens(periods) + p.len
  {
    assert (periods + [p])[..|periods|] == periods;
  }

  lemma BodiesPatched(periods: seq<Period>, len: nat)
    ensures Bodies(Patched(periods, len)) == Bodies(periods)
    ensures periods != [] ==> Lens(Patched(periods, len)) == Lens(periods[..|periods| - 1]) + len
  {
    if periods != [] {
      assert Patched(periods, len)[..|periods| - 1] == periods[..|periods| - 1];
    }
  }

  // Lengths that are never too long are right throughout when nothing is missing in total.
  lemma {:induction false} RightIffNothingMissing(periods: seq<Period>)
    requires NotLong(periods)
    ensures Lens(periods) <= |Bodies(periods)|
    ensures Lens(periods) == |Bodies(periods)| <==> forall k :: 0 <= k < |periods| ==> periods[k].len == |periods[k].bytes|
    decreases |periods|
  {
    if periods != [] {
      var before := periods[..|periods| - 1];
      RightIffNothingMissing(before);
      if Lens(periods) == |Bodies(periods)| {
        forall k | 0 <= k < |periods|
          ensures periods[k].len == |periods[k].bytes|
        {
          if k < |before| {
            assert before[k] == periods[k];
          }
        }
      }
      assert forall k :: 0 <= k < |before| ==> before[k] == periods[k];
    }
  }

  // Payload and lengths depend on the file and the counts alone.
  lemma SameFile(s: Scan, t: Scan)
    requires s.early == t.early && s.periods == t.periods
    ensures Payload(s) == Payload(t)
    ensures s.len + s.counted == t.len + t.counted ==> Fair(s) == Fair(t) && Shortfall(s) == Shortfall(t)
  {
  }

  lemma BodiesWritten(s: Scan, b: seq<byte>)
    requires s.periods != []
    ensures var n, t := |s.periods| - 1, Written(s, b).periods;
            |t| == n + 1 && t[..n] == s.periods[..n] && Bodies(t) == Bodies(s.periods) + b
  {
    var n, t := |s.periods| - 1, Written(s, b).periods;
    assert t[..n] == s.periods[..n];
    assert Bodies(s.periods[..n]) + (s.periods[n].bytes + b) == (Bodies(s.periods[..n]) + s.periods[n].bytes) + b;
  }

  lemma WrittenTally(s: Scan, b: seq<byte>)
    ensures var t := Written(s, b).(counted := s.counted + |b|);
            && Payload(t) == Payload(s) + b && (Fair(s) ==> Fair(t)) && Shortfall(t) == Shortfall(s)
    ensures s.periods == [] <==> Written(s, b).periods == []
    ensures Written(s, b) == s.(early := Written(s, b).early, periods := Written(s, b).periods)
  {
    hide Fair, Bodies, Lens;
    var t := Written(s, b).(counted := s.counted + |b|);
    if s.periods != [] {
      BodiesWritten(s, b);
      BodiesPatched(s.periods, s.len + s.counted);
      BodiesPatched(t.periods, t.len + t.counted);
      assert s.early + (Bodies(s.periods) + b) == (s.early + Bodies(s.periods)) + b;
      if Fair(s) {
        FairWhenWritten(s, b);
      }
    } else {
      NoBodies();
      assert (s.early + b) + [] == (s.early + []) + b;
      FairWithoutPeriods(s);
      FairWithoutPeriods(t);
    }
  }

  lemma NoBodies()
    ensures Bodies([]) == []
  {
  }

  lemma FairWithoutPeriods(s: Scan)
    requires s.periods == []
    ensures Fair(s)
  {
  }

  lemma FairWhenWritten(s: Scan, b: seq<byte>)
    requires s.periods != [] && Fair(s)
    ensures Fair(Written(s, b).(counted := s.counted + |b|))
  {
    var t := Written(s, b).(counted := s.counted + |b|);
    var n := |s.periods| - 1;
    var p, q := Patched(s.periods, s.len + s.counted), Patched(t.periods, t.len + t.counted);
    assert p[n].len <= |p[n].bytes|;
    forall k | 0 <= k < |q|
      ensures q[k].len <= |q[k].bytes|
    {
      if k < n {
        assert q[k] == p[k];
      }
    }
  }

  // Patching the last header and appending a new one, before anything of the job is written
  lemma NewPeriodTally(s: Scan, up: Uptime)
    requires Fair(s) && s.counted == 0
    ensures var t := NewPeriod(s, up); Fair(t) && Payload(t) == Payload(s) && Shortfall(t) == Shortfall(s)
  {
    var t := NewPeriod(s, up);
    var p := Patched(s.periods, s.len);
    var added := Period(up.start, up.stop, 0, []);
    BodiesPatched(s.periods, s.len);
    BodiesPush(p, added);
    assert Patched(t.periods, 0) == p + [added];
    assert Bodies(s.periods) + [] == Bodies(s.periods);
  }

  lemma NewPeriodKeeps(s: Scan, up: Uptime)
    ensures var t := NewPeriod(s, up);
            && t.writeOk == s.writeOk && t.report == s.report && t.counted == s.counted && t.early == s.early && t.len == 0
            && t.firstRec == s.firstRec && t.periods != []
  {
  }

  // Inside a kept job: nothing more to ask, or the answer is yes, and only the first record may start a period
  predicate Going(s: Scan, opts: Options, answer: bool) {
    && Fair(s) && s.writeOk && (s.report && opts.ask ==> answer) && (s.firstRec ==> s.counted == 0)
  }

  // The bytes are behind what was written before, and all of them are counted.
  predicate Grows(s: Scan, t: Scan, b: seq<byte>) {
    && Payload(t) == Payload(s) + b && t.counted == s.counted + |b| && Shortfall(t) == Shortfall(s)
    && (t.periods == [] ==> t.stop == s.stop)
  }

  // Writing an entry now leaves a file with a boot header.
  predicate Headed(s: Scan, job: Job) {
    s.periods != [] || (s.firstRec && job.btime > s.stop)
  }

  lemma RecGoes(s: Scan, up: Uptime, job: Job, section: Section, e: Entry, opts: Options, answer: bool)
    requires Going(s, opts, answer) && !JobZero(e) && Consistent(section, e)
    ensures var (t, ok) := PreserveOne(s, up, job, section, e, opts, answer);
            && ok && Going(t, opts, answer) && Grows(s, t, EntryBytes(e.slots))
            && !t.firstRec && (t.periods != [] <==> Headed(s, job))
  {
    hide EntryBytes, Counted, Fair, Shortfall, Payload, NewPeriod, Written, JobZero;
    var s1 := if s.report then s.(report := false, writeOk := if opts.ask then answer else s.writeOk) else s;
    SameFile(s, s1);
    var s2 := if !s1.firstRec then s1
              else (if job.btime > s1.stop then NewPeriod(s1, up) else s1).(firstRec := false);
    if s1.firstRec && job.btime > s1.stop {
      NewPeriodTally(s1, up);
      NewPeriodKeeps(s1, up);
      SameFile(NewPeriod(s1, up), s2);
    } else {
      SameFile(s1, s2);
    }
    WrittenTally(s2, EntryBytes(e.slots));
  }

  lemma {:induction false} SectionGoes(s: Scan, up: Uptime, job: Job, section: Section, es: seq<Entry>, opts: Options, answer: bool)
    requires Going(s, opts, answer) && NoJobZero(es) && Measured(section, es)
    ensures var (t, ok) := PreserveAll(s, up, job, section, es, opts, answer);
            && ok && Going(t, opts, answer) && Grows(s, t, SectionBytes(es))
            && if es == [] then t == s else !t.firstRec && (t.periods != [] <==> Headed(s, job))
    decreases |es|
  {
    hide Going, Payload, Shortfall, Consistent, JobZero, PreserveOne, EntryBytes;
    if es != [] {
      var before := es[..|es| - 1];
      SectionGoes(s, up, job, section, before, opts, answer);
      var s1 := PreserveAll(s, up, job, section, before, opts, answer).0;
      RecGoes(s1, up, job, section, es[|es| - 1], opts, answer);
      assert Payload(s) + SectionBytes(before) + EntryBytes(es[|es| - 1].slots)
             == Payload(s) + (SectionBytes(before) + EntryBytes(es[|es| - 1].slots));
    } else {
      assert Payload(s) + [] == Payload(s);
    }
  }

  // Once a section gave up, the entries behind do not matter.
  lemma {:induction false} GaveUp(s: Scan, up: Uptime, job: Job, section: Section, es: seq<Entry>, k: nat, opts: Options,
                                  answer: bool)
    requires k <= |es| && !PreserveAll(s, up, job, section, es[..k], opts, answer).1
    ensures PreserveAll(s, up, job, section, es, opts, answer) == PreserveAll(s, up, job, section, es[..k], opts, answer)
    decreases |es|
  {
    hide PreserveOne;
    if k < |es| {
      assert es[..|es| - 1][..k] == es[..k];
      GaveUp(s, up, job, section, es[..|es| - 1], k, opts, answer);
    } else {
      assert es[..k] == es;
    }
  }

  // Nothing behind the first process of job 0 matters.
  lemma GivesUpThere(s: Scan, up: Uptime, job: Job, es: seq<Entry>, z: nat, opts: Options, answer: bool)
    requires z < |es| && JobZero(es[z]) && PreserveAll(s, up, job, Eop, es[..z], opts, answer).1
    ensures PreserveAll(s, up, job, Eop, es, opts, answer) == (PreserveAll(s, up, job, Eop, es[..z], opts, answer).0, false)
  {
    hide JobZero, EntryBytes, Counted;
    assert es[..z + 1][..z] == es[..z];
    GaveUp(s, up, job, Eop, es, z + 1, opts, answer);
  }

  // The process section of a kept job
  lemma EopGoes(s: Scan, v: Visit, opts: Options)
    requires Going(s, opts, v.answer) && Measured(Eop, ReachedEop(v.job))
    ensures var (t, ok) := PreserveAll(s, v.up, v.job, Eop, v.job.eop, opts, v.answer);
            && ok == !GivesUp(v.job) && Going(t, opts, v.answer) && Grows(s, t, SectionBytes(ReachedEop(v.job)))
            && if ReachedEop(v.job) == [] then t == s else !t.firstRec && (t.periods != [] <==> Headed(s, v.job))
  {
    hide Going, Grows, PreserveAll, Measured, SectionBytes, FirstZero, JobZero;
    var z := FirstZero(v.job.eop);
    SectionGoes(s, v.up, v.job, Eop, ReachedEop(v.job), opts, v.answer);
    if z < |v.job.eop| {
      GivesUpThere(s, v.up, v.job, v.job.eop, z, opts, v.answer);
    } else {
      assert v.job.eop[..z] == v.job.eop;
    }
  }

  // At least one entry of the job is written.
  predicate Writes(job: Job) {
    job.wkmg != [] || ReachedEop(job) != [] || ReachedRec(job) != []
  }

  lemma NoEntries()
    ensures SectionBytes([]) == []
  {
  }

  // preserve_job on a kept job: all it reaches is written and counted, and it may start the first boot header.
  lemma PreserveJobGoes(s: Scan, v: Visit, opts: Options)
    requires Fair(s.(counted := 0)) && Kept(v, opts) && InSections(v.job) && Sound(v.job)
    ensures var (t, ok) := PreserveJob(s, v.up, v.job, opts, v.answer);
            && ok == !GivesUp(v.job) && Fair(t) && Grows(StartJob(s, opts), t, JobBytes(v.job))
            && (t.periods != [] <==> s.periods != [] || (Writes(v.job) && v.job.btime > s.stop))
  {
    hide Payload, Shortfall, Fair, PreserveAll, SectionBytes, Measured, Wanted, FirstZero, NoJobZero, InSections;
    var s0 := StartJob(s, opts);
    var job := v.job;
    SameFile(s.(counted := 0), s0);
    NoJobZeroOutside(job);
    SectionGoes(s0, v.up, job, Wkmg, job.wkmg, opts, v.answer);
    var s1 := PreserveAll(s0, v.up, job, Wkmg, job.wkmg, opts, v.answer).0;
    EopGoes(s1, v, opts);
    var s2 := PreserveAll(s1, v.up, job, Eop, job.eop, opts, v.answer).0;
    var a, b, c, d := Payload(s), SectionBytes(job.wkmg), SectionBytes(ReachedEop(job)), SectionBytes(ReachedRec(job));
    SameFile(s, s0);
    assert a + b + c + d == a + (b + c + d);
    if GivesUp(job) {
      NoEntries();
      assert b + c + [] == b + c;
    } else {
      SectionGoes(s2, v.up, job, Rec, job.rec, opts, v.answer);
    }
  }

  lemma NoJobZeroOutside(job: Job)
    requires InSections(job)
    ensures NoJobZero(job.wkmg) && NoJobZero(job.rec)
  {
    NoBaseNoJobZero(job.wkmg);
    NoBaseNoJobZero(job.rec);
  }

  // ---- Jobs that are not kept ----

  // Nothing of the job was written or counted, whatever was asked.
  predicate Idle(s: Scan, t: Scan) {
    t.early == s.early && t.periods == s.periods && t.len == s.len && t.stop == s.stop && t.counted == 0
  }

  // Still nothing to write: nothing is allowed, or the question is yet to come and the answer will be no.
  predicate Waiting(t: Scan, opts: Options, answer: bool) {
    if t.report && opts.ask then !answer else !t.writeOk
  }

  lemma RecIdle(s: Scan, t: Scan, up: Uptime, job: Job, section: Section, e: Entry, opts: Options, answer: bool)
    requires Idle(s, t) && Waiting(t, opts, answer) && (section != Eop ==> !JobZero(e))
    ensures var u := PreserveOne(t, up, job, section, e, opts, answer).0; Idle(s, u) && Waiting(u, opts, answer)
  {
    hide JobZero, EntryBytes, Counted, NewPeriod, Written;
  }

  lemma {:induction false} SectionIdle(s: Scan, t: Scan, up: Uptime, job: Job, section: Section, es: seq<Entry>, opts: Options,
                                       answer: bool)
    requires Idle(s, t) && Waiting(t, opts, answer) && (section != Eop ==> NoJobZero(es))
    ensures var u := PreserveAll(t, up, job, section, es, opts, answer).0; Idle(s, u) && Waiting(u, opts, answer)
    decreases |es|
  {
    hide JobZero, PreserveOne, Idle, Waiting;
    if es != [] {
      SectionIdle(s, t, up, job, section, es[..|es| - 1], opts, answer);
      var u := PreserveAll(t, up, job, section, es[..|es| - 1], opts, answer).0;
      RecIdle(s, u, up, job, section, es[|es| - 1], opts, answer);
    }
  }

  lemma NoBaseNoJobZero(es: seq<Entry>)
    requires forall e :: e in es ==> KERNEL_CSA !in e.slots
    ensures NoJobZero(es)
  {
    forall k | 0 <= k < |es|
      ensures !JobZero(es[k])
    {
      assert es[k] in es;
    }
  }

  lemma OtherJobIdle(s: Scan, v: Visit, opts: Options)
    requires !Kept(v, opts) && InSections(v.job) && ValidOptions(opts)
    ensures var t := ScanJob(s, v, opts); t.early == s.early && t.periods == s.periods && t.len == s.len && t.stop == s.stop
  {
    hide PreserveAll, NoJobZero;
    if Wanted(v.job) {
      var s0 := StartJob(s, opts);
      var job := v.job;
      NoBaseNoJobZero(job.wkmg);
      NoBaseNoJobZero(job.rec);
      SectionIdle(s, s0, v.up, job, Wkmg, job.wkmg, opts, v.answer);
      var s1 := PreserveAll(s0, v.up, job, Wkmg, job.wkmg, opts, v.answer).0;
      SectionIdle(s, s1, v.up, job, Eop, job.eop, opts, v.answer);
      var s2 := PreserveAll(s1, v.up, job, Eop, job.eop, opts, v.answer).0;
      SectionIdle(s, s2, v.up, job, Rec, job.rec, opts, v.answer);
    }
  }

  // ---- Whole runs ----

  // Jobs as csabuild leaves them; what is written of those that are kept has consistent sizes.
  ghost predicate SoundRun(vs: seq<Visit>, opts: Options) {
    forall k :: 0 <= k < |vs| ==> InSections(vs[k].job) && (Kept(vs[k], opts) ==> Sound(vs[k].job))
  }

  function KeptBytes(vs: seq<Visit>, opts: Options): seq<byte> {
    if vs == [] then []
    else
      var v := vs[|vs| - 1];
      KeptBytes(vs[..|vs| - 1], opts) + if Kept(v, opts) then JobBytes(v.job) else []
  }

  // The file has a boot header when the job is done, whatever was before.
  predicate StartsHeader(v: Visit, opts: Options) {
    Kept(v, opts) && Writes(v.job) && v.job.btime > 0
  }

  predicate HasHeader(vs: seq<Visit>, opts: Options) {
    exists k :: 0 <= k < |vs| && StartsHeader(vs[k], opts)
  }

  lemma HasHeaderPush(vs: seq<Visit>, opts: Options)
    requires vs != []
    ensures HasHeader(vs, opts) <==> HasHeader(vs[..|vs| - 1], opts) || StartsHeader(vs[|vs| - 1], opts)
  {
    var before := vs[..|vs| - 1];
    if HasHeader(before, opts) {
      if k :| 0 <= k < |before| && StartsHeader(before[k], opts) {
        assert StartsHeader(vs[k], opts);
      }
    }
    if HasHeader(vs, opts) && !StartsHeader(vs[|vs| - 1], opts) {
      if k :| 0 <= k < |vs| && StartsHeader(vs[k], opts) {
        assert StartsHeader(before[k], opts);
      }
    }
  }

  // What is written behind a boot header and never added to its length
  function Uncounted(vs: seq<Visit>, opts: Options): nat {
    if vs == [] then 0
    else
      var v := vs[|vs| - 1];
      Uncounted(vs[..|vs| - 1], opts)
      + if Kept(v, opts) && GivesUp(v.job) && HasHeader(vs, opts) then |JobBytes(v.job)| else 0
  }

  // preserve_job gives up when something of the job is in the file.
  predicate Loses(v: Visit, opts: Options) {
    Kept(v, opts) && GivesUp(v.job) && JobBytes(v.job) != []
  }

  // No such job once there is a boot header
  ghost predicate Complete(vs: seq<Visit>, opts: Options) {
    forall k :: 0 <= k < |vs| && Loses(vs[k], opts) ==> !HasHeader(vs[..k + 1], opts)
  }

  lemma {:induction false} UncountedIffLoses(vs: seq<Visit>, opts: Options)
    ensures Uncounted(vs, opts) == 0 <==> Complete(vs, opts)
    decreases |vs|
  {
    hide Loses, HasHeader, Kept, GivesUp, JobBytes;
    if vs != [] {
      var n := |vs| - 1;
      UncountedIffLoses(vs[..n], opts);
      assert vs[..n + 1] == vs;
      LosesMeans(vs[n], opts);
      assert forall k :: 0 <= k < n ==> vs[..n][k] == vs[k] && vs[..n][..k + 1] == vs[..k + 1];
    }
  }

  lemma LosesMeans(v: Visit, opts: Options)
    ensures Loses(v, opts) <==> Kept(v, opts) && GivesUp(v.job) && |JobBytes(v.job)| != 0
  {
  }

  lemma CountDropped(s: Scan)
    requires Fair(s)
    ensures Fair(s.(counted := 0))
    ensures Shortfall(s.(counted := 0)) == Shortfall(s) + if s.periods == [] then 0 else s.counted
  {
    BodiesPatched(s.periods, s.len + s.counted);
    BodiesPatched(s.periods, s.len);
    if s.periods != [] {
      var n := |s.periods| - 1;
      var p, q := Patched(s.periods, s.len + s.counted), Patched(s.periods, s.len);
      assert p[n].len <= |p[n].bytes|;
      assert forall k :: 0 <= k < n ==> q[k] == p[k];
    }
  }

  // A kept job with all its bytes: the lengths miss them exactly when preserve_job gives up and there is a boot header.
  lemma KeptJobGoes(s: Scan, v: Visit, opts: Options)
    requires Fair(s.(counted := 0)) && Kept(v, opts) && InSections(v.job) && Sound(v.job)
    requires s.periods == [] ==> s.stop == 0
    ensures var t := ScanJob(s, v, opts);
            && Fair(t.(counted := 0)) && Payload(t) == Payload(s) + JobBytes(v.job)
            && (t.periods != [] <==> s.periods != [] || StartsHeader(v, opts)) && (t.periods == [] ==> t.stop == 0)
            && Shortfall(t.(counted := 0))
               == Shortfall(s.(counted := 0)) + if GivesUp(v.job) && t.periods != [] then |JobBytes(v.job)| else 0
  {
    hide PreserveJob, Payload, Shortfall, Fair, JobBytes, GivesUp, Wanted, InSections, Sound, Writes;
    PreserveJobGoes(s, v, opts);
    var s0 := StartJob(s, opts);
    SameFile(s.(counted := 0), s0);
    SameFile(s, s0);
    var t := PreserveJob(s, v.up, v.job, opts, v.answer).0;
    if GivesUp(v.job) {
      CountDropped(t);
      SameFile(t, t.(counted := 0));
    } else {
      SameFile(t, t.(len := t.len + t.counted));
      SameFile(t, t.(len := t.len + t.counted, counted := 0));
    }
  }

  lemma NothingTallied()
    ensures Fair(NOTHING.(counted := 0)) && Payload(NOTHING) == [] && Shortfall(NOTHING.(counted := 0)) == 0
  {
  }

  lemma {:induction false} ScanTallies(vs: seq<Visit>, opts: Options)
    requires SoundRun(vs, opts) && ValidOptions(opts)
    ensures var s := ScanAll(vs, opts);
            && Fair(s.(counted := 0)) && Payload(s) == KeptBytes(vs, opts) && Shortfall(s.(counted := 0)) == Uncounted(vs, opts)
            && (s.periods != [] <==> HasHeader(vs, opts)) && (s.periods == [] ==> s.stop == 0)
    decreases |vs|
  {
    hide Fair, Shortfall, Payload, ScanJob, JobBytes, Kept, Sound, InSections, HasHeader, StartsHeader, GivesUp;
    if vs == [] {
      NothingTallied();
      assert !HasHeader([], opts) by {
        NoHeaderAtFirst(opts);
      }
    } else {
      var v := vs[|vs| - 1];
      ScanTallies(vs[..|vs| - 1], opts);
      var s := ScanAll(vs[..|vs| - 1], opts);
      HasHeaderPush(vs, opts);
      if Kept(v, opts) {
        KeptJobGoes(s, v, opts);
      } else {
        OtherJobIdle(s, v, opts);
        NotKeptNoHeader(v, opts);
        var t := ScanJob(s, v, opts);
        SameFile(s.(counted := 0), t.(counted := 0));
        SameFile(s, t);
        assert KeptBytes(vs[..|vs| - 1], opts) + [] == KeptBytes(vs[..|vs| - 1], opts);
      }
    }
  }

  lemma NoHeaderAtFirst(opts: Options)
    ensures !HasHeader([], opts)
  {
  }

  lemma NotKeptNoHeader(v: Visit, opts: Options)
    requires !Kept(v, opts)
    ensures !StartsHeader(v, opts)
  {
  }

  // At the end of any run, over all answers: no boot header's length is too long; together they miss exactly what jobs
  // left when preserve_job gave up on them; so all of them are right if and only if no job lost its count behind a boot
  // header. And the file holds, boot headers aside, exactly the entries of the kept jobs that were reached.
  lemma LengthsAreRight(vs: seq<Visit>, opts: Options)
    requires SoundRun(vs, opts) && ValidOptions(opts)
    ensures NotLong(Finished(vs, opts))
    ensures |Bodies(Finished(vs, opts))| - Lens(Finished(vs, opts)) == Uncounted(vs, opts)
    ensures (forall k :: 0 <= k < |Finished(vs, opts)| ==> Finished(vs, opts)[k].len == |Finished(vs, opts)[k].bytes|)
            <==> Complete(vs, opts)
    ensures ScanAll(vs, opts).early + Bodies(Finished(vs, opts)) == KeptBytes(vs, opts)
  {
    hide ScanAll, KeptBytes, SoundRun, Complete, Uncounted;
    ScanTallies(vs, opts);
    BodiesPatched(ScanAll(vs, opts).periods, ScanAll(vs, opts).len);
    RightIffNothingMissing(Finished(vs, opts));
    UncountedIffLoses(vs, opts);
  }

  // ---- In the bytes of the file ----

  lemma {:induction false} LittleBack(n: nat, k: nat)
    requires n < Power256(k)
    ensures FromLittle(Little(n, k)) == n
    decreases k
  {
    if k > 0 {
      LittleBack(n / 256, k - 1);
      assert Little(n, k)[1..] == Little(n / 256, k - 1);
    }
  }

  function Power256(k: nat): nat {
    if k == 0 then 1 else 256 * Power256(k - 1)
  }

  // Where the boot header of period k starts
  function HeaderAt(early: seq<byte>, periods: seq<Period>, k: nat): nat
    requires k <= |periods|
  {
    if k == 0 then |early| else HeaderAt(early, periods, k - 1) + SIZE_CFG + |periods[k - 1].bytes|
  }

  lemma {:induction false} HeaderInFile(early: seq<byte>, periods: seq<Period>, k: nat, uname: seq<byte>)
    requires k < |periods| && |uname| == UNAME_SIZE
    ensures var f, p := early + Layout(periods, uname), HeaderAt(early, periods, k);
            && p + SIZE_CFG + |periods[k].bytes| <= |f|
            && f[p..p + SIZE_CFG] == BootHeader(periods[k], uname)
            && f[p + SIZE_CFG..p + SIZE_CFG + |periods[k].bytes|] == periods[k].bytes
            && (k == |periods| - 1 ==> p + SIZE_CFG + |periods[k].bytes| == |f|)
    decreases |periods|
  {
    hide BootHeader;
    var n := |periods| - 1;
    var before := periods[..n];
    var g := early + Layout(before, uname);
    var f := early + Layout(periods, uname);
    var header := BootHeader(periods[n], uname);
    assert f == g + header + periods[n].bytes;
    HeaderAtPrefix(early, periods, k);
    if k < n {
      HeaderInFile(early, before, k, uname);
      var p := HeaderAt(early, periods, k);
      assert f[..|g|] == g;
      SliceOfSlice(f, 0, |g|, p, SIZE_CFG);
      SliceOfSlice(f, 0, |g|, p + SIZE_CFG, |periods[k].bytes|);
    } else {
      LayoutSize(early, before, uname);
    }
  }

  lemma {:induction false} HeaderAtPrefix(early: seq<byte>, periods: seq<Period>, k: nat)
    requires k < |periods|
    ensures HeaderAt(early, periods[..|periods| - 1], k) == HeaderAt(early, periods, k)
  {
    if k > 0 {
      HeaderAtPrefix(early, periods, k - 1);
    }
  }

  lemma {:induction false} LayoutSize(early: seq<byte>, periods: seq<Period>, uname: seq<byte>)
    requires |uname| == UNAME_SIZE
    ensures |early + Layout(periods, uname)| == HeaderAt(early, periods, |periods|)
    decreases |periods|
  {
    if periods != [] {
      LayoutSize(early, periods[..|periods| - 1], uname);
      var n := |periods| - 1;
      if n > 0 {
        HeaderAtWhole(early, periods, n);
      }
    }
  }

  lemma {:induction false} HeaderAtWhole(early: seq<byte>, periods: seq<Period>, k: nat)
    requires 0 < k < |periods|
    ensures HeaderAt(early, periods[..|periods| - 1], k) == HeaderAt(early, periods, k)
    decreases k
  {
    if k > 1 {
      HeaderAtWhole(early, periods, k - 1);
    }
  }

  // The length that the boot header of period k gives, read from the eight bytes of ac_uptimelen in the file
  function HeaderLen(f: seq<byte>, early: seq<byte>, periods: seq<Period>, k: nat): nat
    requires k < |periods| && HeaderAt(early, periods, k) + SIZE_CFG <= |f|
  {
    var p := HeaderAt(early, periods, k);
    FromLittle(f[p..p + SIZE_CFG][UPTIMELEN_OFFSET..UPTIMELEN_OFFSET + 8])
  }

  // The distance from the end of that header to the next boot header, or to the end of the file
  function Distance(f: seq<byte>, early: seq<byte>, periods: seq<Period>, k: nat): int
    requires k < |periods|
  {
    (if k + 1 < |periods| then HeaderAt(early, periods, k + 1) else |f|) - (HeaderAt(early, periods, k) + SIZE_CFG)
  }

  lemma BodyFits(early: seq<byte>, periods: seq<Period>, k: nat, uname: seq<byte>)
    requires k < |periods| && |uname| == UNAME_SIZE
    ensures var f := early + Layout(periods, uname);
            && HeaderAt(early, periods, k) + SIZE_CFG <= |f| && |periods[k].bytes| <= |f|
            && f[HeaderAt(early, periods, k)..HeaderAt(early, periods, k) + SIZE_CFG] == BootHeader(periods[k], uname)
            && Distance(f, early, periods, k) == |periods[k].bytes|
  {
    hide BootHeader, Layout;
    HeaderInFile(early, periods, k, uname);
  }

  // What the boot headers of the finished file say when they are read: never more than the distance to the next one, and
  // in all of them exactly that distance if and only if no job lost its count behind a boot header.
  lemma UptimeLenInFile(vs: seq<Visit>, opts: Options, uname: seq<byte>)
    requires SoundRun(vs, opts) && ValidOptions(opts) && |uname| == UNAME_SIZE
    requires |Pacct0(vs, opts, uname)| < 0x8000_0000_0000_0000
    ensures var f, early, ps := Pacct0(vs, opts, uname), ScanAll(vs, opts).early, Finished(vs, opts);
            && (forall k :: 0 <= k < |ps| ==>
                  && HeaderAt(early, ps, k) + SIZE_CFG <= |f|
                  && Decode(f[HeaderAt(early, ps, k)..HeaderAt(early, ps, k) + SIZE_CFG]).kind == KERNEL_CFG
                  && HeaderLen(f, early, ps, k) <= Distance(f, early, ps, k))
            && ((forall k :: 0 <= k < |ps| ==> HeaderLen(f, early, ps, k) == Distance(f, early, ps, k)) <==> Complete(vs, opts))
  {
    hide ScanAll, Finished, SoundRun, BootHeader, Layout, Complete, HeaderAt, Distance, FromLittle, Decode, Bodies, Lens, Uncounted,
         KeptBytes;
    var f, early, ps := Pacct0(vs, opts, uname), ScanAll(vs, opts).early, Finished(vs, opts);
    LengthsAreRight(vs, opts);
    forall k | 0 <= k < |ps|
      ensures HeaderAt(early, ps, k) + SIZE_CFG <= |f|
      ensures Decode(f[HeaderAt(early, ps, k)..HeaderAt(early, ps, k) + SIZE_CFG]).kind == KERNEL_CFG
      ensures HeaderLen(f, early, ps, k) == ps[k].len && Distance(f, early, ps, k) == |ps[k].bytes|
    {
      BodyFits(early, ps, k, uname);
      BootHeaderFields(ps[k], uname);
    }
  }

  lemma BootHeaderFields(p: Period, uname: seq<byte>)
    requires |uname| == UNAME_SIZE && p.len < 0x8000_0000_0000_0000
    ensures FromLittle(BootHeader(p, uname)[UPTIMELEN_OFFSET..UPTIMELEN_OFFSET + 8]) == p.len
    ensures Decode(BootHeader(p, uname)).kind == KERNEL_CFG
  {
    hide Encode, Decode, FromLittle, Little;
    var b := BootHeader(p, uname);
    assert b[UPTIMELEN_OFFSET..UPTIMELEN_OFFSET + 8] == Bytes8(p.len);
    assert p.len % 0x1_0000_0000_0000_0000 == p.len;
    Power256Of8();
    LittleBack(p.len, 8);
    var h := Achead(ACCT_MAGIC, RevTab(KERNEL_CFG), KERNEL_CFG, 0, SIZE_CFG);
    assert b[..HDR_SIZE] == Encode(h);
    DecodeStart(b);
  }

  lemma DecodeStart(b: seq<byte>)
    requires |b| >= HDR_SIZE
    ensures Decode(b) == Decode(b[..HDR_SIZE])
  {
  }

  lemma Power256Of8()
    ensures Power256(8) == 0x1_0000_0000_0000_0000
  {
    assert Power256(2) == 0x1_0000;
    assert Power256(4) == 0x1_0000_0000;
    assert Power256(6) == 0x1_0000_0000_0000;
  }

  // ---- A header that is wrong ----

  const LONE_WKMG: Entry := Entry.Entry(Blank(DAEMON_WKMG), map[DAEMON_WKMG := Blank(DAEMON_WKMG)])
  const JOB_ZERO_CSA: Entry := Entry.Entry(Blank(KERNEL_CSA), map[KERNEL_CSA := Blank(KERNEL_CSA)])

  // One job that still runs, with a workload management record and a process whose base record has job id 0
  const JOB_ZERO_VISIT: Visit := Visit(Uptime(1, 2, []), Job(0, 5, [LONE_WKMG], [JOB_ZERO_CSA], []), true)

  const NO_OPTIONS: Options := Options(false, false, false)

  lemma LoneWkmg()
    ensures |EntryBytes(LONE_WKMG.slots)| == SIZE_WKMG && HeaderSize(LONE_WKMG.prime) == SIZE_WKMG
  {
    hide Blank, Present, Marked, WellFormed, Decode;
    var slots := LONE_WKMG.slots;
    BlankWellFormed(DAEMON_WKMG);
    assert HeaderSize(LONE_WKMG.prime) == SIZE_WKMG by {
      BlankSize(DAEMON_WKMG);
    }
    WkmgPresent(slots);
    ChainStep([Blank(DAEMON_WKMG)]);
  }

  lemma BlankSize(kind: int)
    requires StructSize(kind) >= HDR_SIZE
    ensures HeaderSize(Blank(kind)) == StructSize(kind)
  {
    BlankWellFormed(kind);
  }

  // The scan of that job: a boot header, the workload management record, and nothing added to the length
  lemma JobZeroScan()
    ensures Finished([JOB_ZERO_VISIT], NO_OPTIONS) == [Period(1, 2, 0, EntryBytes(LONE_WKMG.slots))]
    ensures ScanAll([JOB_ZERO_VISIT], NO_OPTIONS).early == []
  {
    hide EntryBytes, Counted;
    var v, opts := JOB_ZERO_VISIT, NO_OPTIONS;
    var s0 := StartJob(NOTHING, opts);
    var b := EntryBytes(LONE_WKMG.slots);
    var s1 := PreserveOne(s0, v.up, v.job, Wkmg, LONE_WKMG, opts, true).0;
    assert s1.periods == [Period(1, 2, 0, [] + b)] && [] + b == b;
    assert v.job.wkmg[..0] == [] && v.job.eop[..0] == [];
    assert PreserveAll(s0, v.up, v.job, Wkmg, v.job.wkmg, opts, true) == (s1, true);
    assert JobZero(JOB_ZERO_CSA) by {
      BlankIsZero();
    }
    GivesUpThere(s1, v.up, v.job, v.job.eop, 0, opts, true);
    assert PreserveJob(NOTHING, v.up, v.job, opts, true) == (s1, false);
    assert [v][..0] == [];
    assert ScanAll([v], opts) == s1;
  }

  lemma BlankIsZero()
    ensures |Blank(KERNEL_CSA)| == SIZE_CSA
    ensures forall k :: HDR_SIZE <= k < SIZE_CSA ==> Blank(KERNEL_CSA)[k] == 0
  {
  }

  // In its pacct0 the one boot header gives length 0, and 208 bytes follow it.
  lemma JobZeroLosesCount(uname: seq<byte>)
    requires |uname| == UNAME_SIZE
    ensures SoundRun([JOB_ZERO_VISIT], NO_OPTIONS) && !Complete([JOB_ZERO_VISIT], NO_OPTIONS)
    ensures var f, ps := Pacct0([JOB_ZERO_VISIT], NO_OPTIONS, uname), Finished([JOB_ZERO_VISIT], NO_OPTIONS);
            && |f| == SIZE_CFG + SIZE_WKMG && |ps| == 1 && HeaderAt([], ps, 0) == 0
            && HeaderLen(f, [], ps, 0) == 0 && Distance(f, [], ps, 0) == SIZE_WKMG
  {
    hide EntryBytes, BootHeader, Layout, ScanAll, Finished, Complete, FromLittle, Blank, Decode;
    var vs, opts := [JOB_ZERO_VISIT], NO_OPTIONS;
    LoneWkmg();
    JobZeroScan();
    var f, ps := Pacct0(vs, opts, uname), Finished(vs, opts);
    assert SoundRun(vs, opts) by {
      JobZeroSound();
    }
    LayoutSize([], ps, uname);
    BodyFits([], ps, 0, uname);
    BootHeaderFields(ps[0], uname);
    LengthsAreRight(vs, opts);
  }

  lemma JobZeroSound()
    ensures InSections(JOB_ZERO_VISIT.job) && Sound(JOB_ZERO_VISIT.job)
  {
    hide EntryBytes, HeaderSize, Blank;
    LoneWkmg();
    assert JobZero(JOB_ZERO_CSA) by {
      BlankIsZero();
    }
  }
}
