// Properties of every run of the accounting daemon: the shape of what it writes, what its masks and its end-of-job
// records say about the run so far.

module DaemonProofs {
  import opened Eop
  import opened DaemonSpec

  // ---- Runs ----

  lemma RunStep(es: Events, e: Event)
    requires ValidEvents(es) && ValidEvent(e)
    ensures ValidEvents(es + [e]) && Run(es + [e]) == Step(Run(es), e)
  {
    hide Step;
    assert (es + [e])[..|es|] == es;
  }

  lemma Split(es: Events)
    requires ValidEvents(es) && es != []
    ensures ValidEvents(es[..|es| - 1])
    ensures Run(es) == Step(Run(es[..|es| - 1]), es[|es| - 1])
  {
    hide Step, ValidEvent;
  }

  // ---- The shape of the system file ----

  predicate Is(r: Rec, event: ConfigEvent) {
    r.Config? && r.event == event
  }

  // An open file: ON, then anything but FILE
  predicate InSession(log: Log) {
    log != [] && Is(log[0], TurnedOn) && forall k :: 0 <= k < |log| ==> !Is(log[k], FileChange)
  }

  // A file that was replaced, stopped or halted: it ends in FILE or OFF.
  predicate Ended(log: Log) {
    && |log| > 1 && InSession(log[..|log| - 1])
    && (Is(log[|log| - 1], FileChange) || Is(log[|log| - 1], TurnedOff))
  }

  predicate LogsInShape(s: State) {
    && (s.sys.Some? ==> InSession(s.sys.value))
    && forall k :: 0 <= k < |s.closed| ==> Ended(s.closed[k])
  }

  lemma AppendInSession(log: Log, r: Rec)
    requires InSession(log) && !Is(r, FileChange)
    ensures InSession(log + [r])
  {
  }

  lemma CloseEnds(log: Log, r: Rec)
    requires InSession(log) && (Is(r, FileChange) || Is(r, TurnedOff))
    ensures Ended(log + [r])
  {
    assert (log + [r])[..|log|] == log;
  }

  lemma ShapeKept(s: State, e: Event)
    requires ValidState(s) && ValidEvent(e) && LogsInShape(s)
    ensures LogsInShape(Step(s, e))
  {
    hide TurnOn, TurnOff, Mask, EopBytes, InSession, Ended, AnyOn, OverThresholds, Collected, Enabled, Set;
    if s.sys.Some? {
      forall r: Rec | Is(r, FileChange) || Is(r, TurnedOff) ensures Ended(s.sys.value + [r]) {
        CloseEnds(s.sys.value, r);
      }
      forall r: Rec | !Is(r, FileChange) ensures InSession(s.sys.value + [r]) {
        AppendInSession(s.sys.value, r);
      }
    }
    forall r: Rec | Is(r, TurnedOn) ensures InSession([r]) {
      First(r);
    }
  }

  lemma First(r: Rec)
    requires Is(r, TurnedOn)
    ensures InSession([r])
  {
  }

  // In every run, what stands in each system file is ON (data | ON | OFF)*, and FILE or OFF ends every closed one.
  lemma {:induction false} LogGrammar(es: Events)
    requires ValidEvents(es)
    ensures LogsInShape(Run(es))
    decreases |es|
  {
    hide Step, LogsInShape;
    if es == [] {
      Fresh();
    } else {
      Split(es);
      LogGrammar(es[..|es| - 1]);
      ShapeKept(Run(es[..|es| - 1]), es[|es| - 1]);
    }
  }

  lemma Fresh()
    ensures LogsInShape(INIT)
  {
  }

  lemma NoneOn()
    ensures !AnyOn(ALL_OFF.dmd)
  {
  }

  // ---- Masks ----

  lemma {:induction false} MaskBound(stats: seq<Stat>)
    ensures Mask(stats) < Power(|stats|)
  {
    if stats != [] {
      MaskBound(stats[..|stats| - 1]);
    }
  }

  lemma {:induction false} PowerSplits(i: nat, n: nat) returns (m: nat)
    requires i < n
    ensures Power(n) == 2 * m * Power(i)
    decreases n
  {
    if i == n - 1 {
      m := 1;
    } else {
      var m0 := PowerSplits(i, n - 1);
      m := 2 * m0;
    }
  }

  lemma BitOfSum(a: nat, i: nat, n: nat)
    requires i < n
    ensures Bit(a + Power(n), i) == Bit(a, i)
  {
    hide Power;
    var m := PowerSplits(i, n);
    DivShift(a, 2 * m, Power(i));
    EvenShift(a / Power(i), m);
  }

  lemma EvenShift(x: nat, m: nat)
    ensures (x + 2 * m) % 2 == x % 2
  {
  }

  lemma DivShift(a: nat, k: nat, p: nat)
    requires p > 0
    ensures (a + k * p) / p == a / p + k
  {
    var q, r := a / p, a % p;
    assert a + k * p == (q + k) * p + r;
    DivUnique(a + k * p, p, q + k, r);
  }

  lemma DivUnique(a: nat, p: nat, q: nat, r: nat)
    requires p > 0 && a == q * p + r && r < p
    ensures a / p == q
  {
    var d := a / p;
    assert d * p <= a < d * p + p;
    MulOrder(d, q, p);
    MulOrder(q, d, p);
  }

  lemma MulOrder(a: nat, b: nat, p: nat)
    ensures a < b ==> a * p + p <= b * p
  {
    if a < b {
      Distribute(a, 1, p);
      Distribute(a + 1, b - a - 1, p);
    }
  }

  lemma Distribute(x: nat, y: nat, p: nat)
    ensures (x + y) * p == x * p + y * p && y * p >= 0
  {
  }

  // A mask tells of every method whether it is on.
  lemma {:induction false} MaskTells(stats: seq<Stat>, i: nat)
    requires i < |stats|
    ensures Bit(Mask(stats), i) == stats[i].on
    decreases |stats|
  {
    hide Power;
    var n := |stats| - 1;
    var before := stats[..n];
    MaskBound(before);
    if i < n {
      MaskTells(before, i);
      if stats[n].on {
        BitOfSum(Mask(before), i, n);
      }
    } else {
      var k := if stats[n].on then 1 else 0;
      DivUnique(Mask(stats), Power(n), k, Mask(before));
    }
  }

  // ---- What a run did to a method ----

  // Whether a request goes through
  predicate Accepted(s: State, req: Request) {
    0 <= req.num <= NUM_KDRCDS && (req.path == Regular || (req.path == NoPath && s.sys.Some?))
  }

  // The parameter of the last entry that names the method
  function ParamOf(stats: seq<Method>, id: int): int {
    if stats == [] then 0
    else if stats[|stats| - 1].id == id then stats[|stats| - 1].param
    else ParamOf(stats[..|stats| - 1], id)
  }

  // The last word on a method: the latest accepted request that named it, or halt
  ghost function LastWord(es: Events, id: int): Stat
    requires ValidEvents(es)
  {
    if es == [] then OFF
    else
      var before := es[..|es| - 1];
      match es[|es| - 1]
      case Halt => OFF
      case Start(req) =>
        if Accepted(Run(before), req) && Named(Entries(req), id) then Stat(true, ParamOf(Entries(req), id))
        else LastWord(before, id)
      case Stop(req) =>
        if 0 <= req.num <= NUM_KDRCDS && Named(Entries(req), id) then OFF else LastWord(before, id)
      case _ => LastWord(before, id)
  }

  lemma {:induction false} TurnOnTurnsOn(tab: Tables, stats: seq<Method>, id: int)
    requires ValidTables(tab) && (forall m :: m in stats ==> MethodId(m.id)) && MethodId(id)
    ensures Get(TurnOn(tab, stats), id) == if Named(stats, id) then Stat(true, ParamOf(stats, id)) else Get(tab, id)
    decreases |stats|
  {
    hide Set, Get;
    if stats != [] {
      TurnOnTurnsOn(tab, stats[..|stats| - 1], id);
    }
  }

  lemma {:induction false} TurnOffTurnsOff(tab: Tables, stats: seq<Method>, id: int)
    requires ValidTables(tab) && (forall m :: m in stats ==> MethodId(m.id)) && MethodId(id)
    ensures Get(TurnOff(tab, stats), id) == if Named(stats, id) then OFF else Get(tab, id)
    decreases |stats|
  {
    hide Set, Get;
    if stats != [] {
      TurnOffTurnsOff(tab, stats[..|stats| - 1], id);
    }
  }

  lemma StopTurnsNoneOn(tab: Tables, stats: seq<Method>)
    requires ValidTables(tab) && (forall m :: m in stats ==> MethodId(m.id)) && !AnyOn(tab.dmd)
    ensures !AnyOn(TurnOff(tab, stats).dmd)
  {
    hide TurnOff;
    forall i | 0 <= i < MAXKDS
      ensures !TurnOff(tab, stats).dmd[i].on
    {
      TurnOffTurnsOff(tab, stats, i);
    }
  }

  // In every run, a kernel or daemon method that is on has an open system file to write to.
  lemma {:induction false} OnMeansOpen(es: Events)
    requires ValidEvents(es)
    ensures AnyOn(Run(es).tab.dmd) ==> Run(es).sys.Some?
    decreases |es|
  {
    hide TurnOn, TurnOff, Mask, EopBytes, OverThresholds, Collected, Enabled, Set, AnyOn;
    NoneOn();
    if es != [] {
      Split(es);
      OnMeansOpen(es[..|es| - 1]);
      if !AnyOn(Run(es[..|es| - 1]).tab.dmd) && es[|es| - 1].Stop? && 0 <= es[|es| - 1].req.num <= NUM_KDRCDS {
        StopTurnsNoneOn(Run(es[..|es| - 1]).tab, Entries(es[|es| - 1].req));
      }
    }
  }

  lemma OtherEventsKeepTables(s: State, e: Event)
    requires ValidState(s) && ValidEvent(e) && !e.Start? && !e.Stop? && !e.Halt?
    ensures Step(s, e).tab == s.tab
  {
    hide Mask, EopBytes, OverThresholds, Collected, Enabled, Set;
  }

  lemma AllOff(id: int)
    requires MethodId(id)
    ensures Get(ALL_OFF, id) == OFF
  {
  }

  // In every run, a method has the state and the parameter the last word on it gave it.
  lemma {:induction false} TablesAreHistory(es: Events, id: int)
    requires ValidEvents(es) && MethodId(id)
    ensures Get(Run(es).tab, id) == LastWord(es, id)
    decreases |es|
  {
    hide Get, Set, TurnOn, TurnOff, Mask, AnyOn, Named, ParamOf;
    AllOff(id);
    if es != [] {
      var before, e := es[..|es| - 1], es[|es| - 1];
      Split(es);
      TablesAreHistory(before, id);
      var s := Run(before);
      match e
      case Start(req) =>
        if Accepted(s, req) {
          TurnOnTurnsOn(s.tab, Entries(req), id);
        }
      case Stop(req) =>
        if 0 <= req.num <= NUM_KDRCDS {
          TurnOffTurnsOff(s.tab, Entries(req), id);
        }
      case Halt =>
      case _ => OtherEventsKeepTables(s, e);
    }
  }

  // ---- Everything written to system files ----

  function Flatten(logs: seq<Log>): Log {
    if logs == [] then [] else Flatten(logs[..|logs| - 1]) + logs[|logs| - 1]
  }

  function Output(s: State): Log {
    Flatten(s.closed) + if s.sys.Some? then s.sys.value else []
  }

  lemma FlattenAppend(logs: seq<Log>, log: Log)
    ensures Flatten(logs + [log]) == Flatten(logs) + log
  {
    assert (logs + [log])[..|logs|] == logs;
  }

  // What a step adds to the output
  function News(s: State, e: Event): Log
    requires ValidState(s) && ValidEvent(e)
  {
    var t := Step(s, e);
    match e
    case Start(req) =>
      if !Accepted(s, req) then []
      else (if req.path == Regular && s.sys.Some? then [ConfigRec(FileChange, s.tab)] else []) + [ConfigRec(TurnedOn, t.tab)]
    case Stop(req) => if s.sys.Some? && 0 <= req.num <= NUM_KDRCDS then [ConfigRec(TurnedOff, t.tab)] else []
    case Halt => if s.sys.Some? then [ConfigRec(TurnedOff, t.tab)] else []
    case JaStart(jid, path) =>
      if s.sys.Some? && path == Regular && jid != 0 && jid in s.jobs then [ConfigRec(TurnedOn, t.tab)] else []
    case JaStop(_, _) => []
    case WrAcct(id, jid, buf) =>
      if s.sys.Some? && 0 <= id < MAXKDS && 0 < |buf| <= MAX_WRACCT && s.tab.dmd[id].on then [Data(buf)] else []
    case Exit(jid, task) =>
      if s.sys.Some? && jid != 0 && jid in s.jobs && s.tab.dmd[KERN_CSA].on && OverThresholds(s.tab, s.jobs[jid].file.Some?, task)
      then [Data(EopBytes(task, Enabled(s.tab)))] else []
    case JobStart(jid) => if s.sys.Some? && jid !in s.jobs then [StartOfJob(jid)] else []
    case JobEnd(jid) => if s.sys.Some? && jid in s.jobs then [EndOfJob(jid, s.jobs[jid].core, s.jobs[jid].virt)] else []
  }

  // No step takes anything back: it appends its records to what all the runs before it wrote.
  lemma OutputGrows(s: State, e: Event)
    requires ValidState(s) && ValidEvent(e)
    ensures Output(Step(s, e)) == Output(s) + News(s, e)
  {
    hide TurnOn, TurnOff, Mask, EopBytes, OverThresholds, Collected, Enabled, Set, Flatten, AnyOn, Get;
    if s.sys.Some? {
      forall r: Rec ensures Flatten(s.closed + [s.sys.value + [r]]) == Flatten(s.closed) + (s.sys.value + [r]) {
        FlattenAppend(s.closed, s.sys.value + [r]);
      }
    }
  }

  // A configuration record's masks show, bit for bit, which methods are on after these events.
  ghost predicate MasksTell(r: Rec, es: Events)
    requires ValidEvents(es) && r.Config?
  {
    && (forall i :: 0 <= i < MAXKDS ==> Bit(r.kdmask, i) == LastWord(es, i).on)
    && forall i :: 0 <= i < NUM_RCDS ==> Bit(r.rmask, i) == LastWord(es, RCDS + i).on
  }

  lemma ConfigTells(event: ConfigEvent, es: Events)
    requires ValidEvents(es)
    ensures MasksTell(ConfigRec(event, Run(es).tab), es)
  {
    hide Bit, Mask, LastWord, Run;
    var tab := Run(es).tab;
    forall i | 0 <= i < MAXKDS
      ensures Bit(Mask(tab.dmd), i) == LastWord(es, i).on
    {
      MaskTells(tab.dmd, i);
      TablesAreHistory(es, i);
    }
    forall i | 0 <= i < NUM_RCDS
      ensures Bit(Mask(tab.rcd), i) == LastWord(es, RCDS + i).on
    {
      MaskTells(tab.rcd, i);
      TablesAreHistory(es, RCDS + i);
    }
  }

  // In every run, each configuration record written last tells the tables of its moment: FILE those before the
  // request took effect, ON and OFF those after it.
  lemma MasksAreTheTables(es: Events, e: Event, k: nat)
    requires ValidEvents(es) && ValidEvent(e) && ValidEvents(es + [e])
    requires |Output(Run(es))| <= k < |Output(Run(es + [e]))| && Output(Run(es + [e]))[k].Config?
    ensures var r := Output(Run(es + [e]))[k]; MasksTell(r, if r.event == FileChange then es else es + [e])
  {
    hide Step, MasksTell, Mask, Output, OverThresholds, EopBytes, Enabled, Run;
    RunStep(es, e);
    OutputGrows(Run(es), e);
    ConfigTells(FileChange, es);
    ConfigTells(TurnedOn, es + [e]);
    ConfigTells(TurnedOff, es + [e]);
  }

  // ---- High water ----

  // A process exit of this job whose memory use counts: the job has a file or csa is on, and the job has a file or
  // memory records are on.
  ghost predicate Counts(es: Events, jid: nat, k: nat)
    requires ValidEvents(es)
  {
    && k < |es| && es[k].Exit? && es[k].jid == jid && jid != 0 && jid in Run(es[..k]).jobs
    && var s := Run(es[..k]);
       var ja := s.jobs[jid].file.Some?;
       (ja || Get(s.tab, KERN_CSA).on) && (ja || Get(s.tab, RCD_MEM).on)
  }

  // Event `start` began the job that has this id now.
  ghost predicate Began(es: Events, jid: nat, start: nat)
    requires ValidEvents(es)
  {
    && start < |es| && es[start] == JobStart(jid) && jid !in Run(es[..start]).jobs
    && forall k :: start < k < |es| ==> es[k] != JobEnd(jid)
  }

  // v is the largest of the core sizes of the exits that count since `start`, or 0 when there is none larger.
  ghost predicate PeakCore(es: Events, jid: nat, start: nat, v: nat)
    requires ValidEvents(es)
  {
    && (forall k :: start < k < |es| && Counts(es, jid, k) ==> es[k].task.coreHimem <= v)
    && (v == 0 || exists k :: start < k < |es| && Counts(es, jid, k) && es[k].task.coreHimem == v)
  }

  ghost predicate PeakVirt(es: Events, jid: nat, start: nat, v: nat)
    requires ValidEvents(es)
  {
    && (forall k :: start < k < |es| && Counts(es, jid, k) ==> es[k].task.virtHimem <= v)
    && (v == 0 || exists k :: start < k < |es| && Counts(es, jid, k) && es[k].task.virtHimem == v)
  }

  lemma CountsEarlier(es: Events, jid: nat, k: nat)
    requires ValidEvents(es) && k < |es| - 1
    ensures Counts(es, jid, k) == Counts(es[..|es| - 1], jid, k)
  {
    hide Run, Get;
    assert es[..|es| - 1][..k] == es[..k];
  }

  // What one event does to a job that goes on
  lemma JobStep(s: State, e: Event, jid: nat)
    requires ValidState(s) && ValidEvent(e) && jid in Step(s, e).jobs && jid in s.jobs
    ensures e != JobEnd(jid)
    ensures var ja := s.jobs[jid].file.Some?;
            var counts := e.Exit? && e.jid == jid && jid != 0
                          && (ja || Get(s.tab, KERN_CSA).on) && (ja || Get(s.tab, RCD_MEM).on);
            && Step(s, e).jobs[jid].core == (if counts then Max(s.jobs[jid].core, e.task.coreHimem) else s.jobs[jid].core)
            && Step(s, e).jobs[jid].virt == if counts then Max(s.jobs[jid].virt, e.task.virtHimem) else s.jobs[jid].virt
  {
    hide Mask, EopBytes, OverThresholds, Enabled, Set, TurnOn, TurnOff, AnyOn;
  }

  lemma JobAppears(s: State, e: Event, jid: nat)
    requires ValidState(s) && ValidEvent(e) && jid in Step(s, e).jobs && jid !in s.jobs
    ensures e == JobStart(jid) && Step(s, e).jobs[jid].core == Step(s, e).jobs[jid].virt == 0
  {
    hide Mask, EopBytes, OverThresholds, Enabled, Set, TurnOn, TurnOff, AnyOn, Collected;
  }

  lemma PeakCoreStep(es: Events, jid: nat, start: nat, v: nat, w: nat)
    requires ValidEvents(es) && start < |es| - 1 && PeakCore(es[..|es| - 1], jid, start, v)
    requires w == if Counts(es, jid, |es| - 1) then Max(v, es[|es| - 1].task.coreHimem) else v
    ensures PeakCore(es, jid, start, w)
  {
    hide Run, Get;
    var n := |es| - 1;
    var before := es[..n];
    forall k | start < k < n
      ensures Counts(es, jid, k) == Counts(before, jid, k) && es[k] == before[k]
    {
      CountsEarlier(es, jid, k);
    }
    if v != 0 {
      assert exists k :: start < k < n && Counts(before, jid, k) && before[k].task.coreHimem == v;
      if k :| start < k < n && Counts(before, jid, k) && before[k].task.coreHimem == v {
        assert Counts(es, jid, k) && es[k].task.coreHimem == v;
      }
    }
  }

  lemma PeakVirtStep(es: Events, jid: nat, start: nat, v: nat, w: nat)
    requires ValidEvents(es) && start < |es| - 1 && PeakVirt(es[..|es| - 1], jid, start, v)
    requires w == if Counts(es, jid, |es| - 1) then Max(v, es[|es| - 1].task.virtHimem) else v
    ensures PeakVirt(es, jid, start, w)
  {
    hide Run, Get;
    var n := |es| - 1;
    var before := es[..n];
    forall k | start < k < n
      ensures Counts(es, jid, k) == Counts(before, jid, k) && es[k] == before[k]
    {
      CountsEarlier(es, jid, k);
    }
    if v != 0 {
      assert exists k :: start < k < n && Counts(before, jid, k) && before[k].task.virtHimem == v;
      if k :| start < k < n && Counts(before, jid, k) && before[k].task.virtHimem == v {
        assert Counts(es, jid, k) && es[k].task.virtHimem == v;
      }
    }
  }

  lemma BeganEarlier(es: Events, jid: nat, start: nat)
    requires ValidEvents(es) && es != [] && Began(es[..|es| - 1], jid, start) && es[|es| - 1] != JobEnd(jid)
    ensures Began(es, jid, start)
  {
    hide Run;
    var before := es[..|es| - 1];
    assert before[..start] == es[..start];
    forall k | start < k < |es|
      ensures es[k] != JobEnd(jid)
    {
      if k < |es| - 1 {
        assert before[k] == es[k];
      }
    }
  }

  // In every run, a live job was begun by some event, and its high-water marks are those of its exits since.
  lemma {:induction false} HighWater(es: Events, jid: nat) returns (start: nat)
    requires ValidEvents(es) && jid in Run(es).jobs
    ensures Began(es, jid, start)
    ensures PeakCore(es, jid, start, Run(es).jobs[jid].core)
    ensures PeakVirt(es, jid, start, Run(es).jobs[jid].virt)
    decreases |es|
  {
    hide Step, Run, PeakCore, PeakVirt, Began;
    NoJobsYet();
    var before, e := es[..|es| - 1], es[|es| - 1];
    Split(es);
    var s := Run(before);
    if jid in s.jobs {
      start := HighWater(before, jid);
      BeganEnds(before, jid, start);
      JobStep(s, e, jid);
      PeakCoreStep(es, jid, start, s.jobs[jid].core, Run(es).jobs[jid].core);
      PeakVirtStep(es, jid, start, s.jobs[jid].virt, Run(es).jobs[jid].virt);
      BeganEarlier(es, jid, start);
    } else {
      start := |before|;
      JobAppears(s, e, jid);
      JustBegan(es, jid);
    }
  }

  lemma NoJobsYet()
    ensures Run([]).jobs == map[]
  {
  }

  lemma BeganEnds(es: Events, jid: nat, start: nat)
    requires ValidEvents(es) && Began(es, jid, start)
    ensures start < |es|
  {
  }

  lemma JustBegan(es: Events, jid: nat)
    requires ValidEvents(es) && es != [] && es[|es| - 1] == JobStart(jid) && jid !in Run(es[..|es| - 1]).jobs
    ensures Began(es, jid, |es| - 1) && PeakCore(es, jid, |es| - 1, 0) && PeakVirt(es, jid, |es| - 1, 0)
  {
    hide Run;
  }

  // In every run, the end-of-job record of a job carries the peaks over that job's own exits: a reused id starts over.
  lemma EndOfJobTellsHighWater(es: Events, jid: nat) returns (start: nat)
    requires ValidEvents(es) && ValidEvents(es + [JobEnd(jid)])
    requires jid in Run(es).jobs && Run(es).sys.Some?
    ensures Began(es, jid, start) && jid !in Run(es + [JobEnd(jid)]).jobs
    ensures var log := Run(es + [JobEnd(jid)]).sys;
            && log.Some? && |log.value| == |Run(es).sys.value| + 1 && log.value[..|log.value| - 1] == Run(es).sys.value
            && var eoj := log.value[|log.value| - 1];
               eoj.EndOfJob? && eoj.jid == jid && PeakCore(es, jid, start, eoj.core) && PeakVirt(es, jid, start, eoj.virt)
  {
    hide Run, PeakCore, PeakVirt, Began;
    RunStep(es, JobEnd(jid));
    start := HighWater(es, jid);
    var s := Run(es);
    var eoj := EndOfJob(jid, s.jobs[jid].core, s.jobs[jid].virt);
    assert (s.sys.value + [eoj])[..|s.sys.value|] == s.sys.value;
  }

  // ---- Thresholds ----

  // A negative threshold, which the daemon accepts, is a very large one: it keeps every process of ordinary size out of the
  // system file, by memory or by time.
  lemma NegativeThresholdDropsAll(s: State, jid: nat, t: Task)
    requires ValidState(s) && ValidTask(t)
    requires var mem, time := Get(s.tab, THD_MEM), Get(s.tab, THD_TIME);
             || (mem.on && Get(s.tab, RCD_MEM).on && -0x8000_0000_0000_0000 <= mem.param < 0 && t.virtHimem < 0x8000_0000_0000_0000)
             || (time.on && -0x8000_0000_0000_0000 <= time.param < 0 && t.utime + t.stime < 0x8000_0000_0000_0000)
    ensures Step(s, Exit(jid, t)).sys == s.sys
  {
    hide EopBytes, Enabled, Collected, Max;
  }
}
