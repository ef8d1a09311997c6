// What the files of the accounting daemon hold after a run, told by the events of the run alone.

module DaemonHistory {
  import opened Basics
  import opened AcctHeader
  import opened AcctReader
  import opened Eop
  import opened DaemonSpec
  import opened DaemonProofs

  // ---- Jobs ----

  // The last event that starts or ends this job id starts it.
  predicate Live(es: Events, jid: nat) {
    es != [] && (es[|es| - 1] == JobStart(jid) || (es[|es| - 1] != JobEnd(jid) && Live(es[..|es| - 1], jid)))
  }

  // A request to take the job's file away; whether its path is empty or usable does not matter.
  predicate Closes(e: Event, jid: nat) {
    e == JobEnd(jid) || e == JaStop(jid, NoPath) || e == JaStop(jid, Regular)
  }

  // Event `start` gave the job the file it still has.
  ghost predicate FileSince(es: Events, jid: nat, start: nat) {
    && start < |es| && es[start] == JaStart(jid, Regular) && jid != 0 && Live(es[..start], jid)
    && forall k :: start < k < |es| ==> es[k] != JaStart(jid, Regular) && !Closes(es[k], jid)
  }

  // What an event leaves in the file of this job
  function Leaves(e: Event, jid: nat): Log {
    match e
    case Exit(j, t) => if j == jid then [Data(EopBytes(t, ALL_LINKS))] else []
    case WrAcct(id, j, buf) => if j == jid && 0 <= id < 5 && 1 <= |buf| <= 1024 then [Data(buf)] else []
    case _ => []
  }

  // What the events from number `from` on leave there, in their order
  function LeftSince(es: Events, jid: nat, from: nat): Log {
    if |es| <= from then [] else LeftSince(es[..|es| - 1], jid, from) + Leaves(es[|es| - 1], jid)
  }

  // What a step does to a job and its file
  lemma JobFileStep(s: State, e: Event, jid: nat)
    requires ValidState(s) && ValidEvent(e)
    requires jid == 0 && jid in s.jobs ==> s.jobs[jid].file == None
    ensures jid in Step(s, e).jobs <==> e == JobStart(jid) || (jid in s.jobs && e != JobEnd(jid))
    ensures jid in Step(s, e).jobs ==>
              Step(s, e).jobs[jid].file ==
              if jid !in s.jobs || Closes(e, jid) then None
              else if jid != 0 && e == JaStart(jid, Regular) then Some([ConfigRec(TurnedOn, s.tab)])
              else if s.jobs[jid].file == None then None
              else Some(s.jobs[jid].file.value + Leaves(e, jid))
  {
    hide Mask, EopBytes, OverThresholds, Enabled, Set, TurnOn, TurnOff, AnyOn, Max, ConfigRec;
    if jid in s.jobs && s.jobs[jid].file.Some? {
      assert s.jobs[jid].file.value + [] == s.jobs[jid].file.value;
    }
  }

  lemma {:induction false} LiveJobs(es: Events, jid: nat)
    requires ValidEvents(es)
    ensures jid in Run(es).jobs <==> Live(es, jid)
    ensures jid == 0 && jid in Run(es).jobs ==> Run(es).jobs[jid].file == None
    decreases |es|
  {
    hide Step, Run;
    NoJobsYet();
    if es != [] {
      Split(es);
      LiveJobs(es[..|es| - 1], jid);
      JobFileStep(Run(es[..|es| - 1]), es[|es| - 1], jid);
    }
  }

  lemma FileSinceEarlier(es: Events, jid: nat, start: nat)
    requires es != [] && start < |es| - 1
    ensures var n := |es| - 1;
            FileSince(es, jid, start) <==>
            FileSince(es[..n], jid, start) && es[n] != JaStart(jid, Regular) && !Closes(es[n], jid)
  {
    var before := es[..|es| - 1];
    assert before[..start] == es[..start];
    assert forall k :: 0 <= k < |before| ==> before[k] == es[k];
  }

  // In every run: what the job's file holds is the ON record of the moment it was given the file, then, in the order of the
  // events since, one entry with everything for each of its processes that ended and one buffer for each that was accepted.
  lemma {:induction false} FileHolds(es: Events, jid: nat, start: nat)
    requires ValidEvents(es) && FileSince(es, jid, start)
    ensures ValidEvents(es[..start]) && jid in Run(es).jobs
    ensures Run(es).jobs[jid].file == Some([ConfigRec(TurnedOn, Run(es[..start]).tab)] + LeftSince(es, jid, start + 1))
    decreases |es|
  {
    hide Step, Run, Live, Leaves, ConfigRec;
    var n := |es| - 1;
    var before := es[..n];
    Split(es);
    LiveJobs(before, jid);
    JobFileStep(Run(before), es[n], jid);
    if start < n {
      FileSinceEarlier(es, jid, start);
      FileHolds(before, jid, start);
      assert before[..start] == es[..start];
      Regroup(ConfigRec(TurnedOn, Run(es[..start]).tab), LeftSince(before, jid, start + 1), Leaves(es[n], jid));
    } else {
      assert [ConfigRec(TurnedOn, Run(before).tab)] + [] == [ConfigRec(TurnedOn, Run(before).tab)];
    }
  }

  lemma Regroup(r: Rec, a: Log, b: Log)
    ensures ([r] + a) + b == [r] + (a + b)
  {
  }

  // And a job has a file only when some event gave it one that nothing took away since.
  lemma {:induction false} FileOnlySince(es: Events, jid: nat) returns (start: nat)
    requires ValidEvents(es) && jid in Run(es).jobs && Run(es).jobs[jid].file.Some?
    ensures FileSince(es, jid, start)
    decreases |es|
  {
    hide Step, Run, Live, Leaves, FileSince;
    NoJobsYet();
    var n := |es| - 1;
    var before := es[..n];
    Split(es);
    LiveJobs(before, jid);
    JobFileStep(Run(before), es[n], jid);
    if jid != 0 && es[n] == JaStart(jid, Regular) {
      start := n;
      GivenNow(es, jid);
    } else {
      start := FileOnlySince(before, jid);
      SinceBound(before, jid, start);
      FileSinceEarlier(es, jid, start);
    }
  }

  lemma SinceBound(es: Events, jid: nat, start: nat)
    requires FileSince(es, jid, start)
    ensures start < |es|
  {
  }

  lemma GivenNow(es: Events, jid: nat)
    requires es != [] && es[|es| - 1] == JaStart(jid, Regular) && jid != 0 && Live(es[..|es| - 1], jid)
    ensures FileSince(es, jid, |es| - 1)
  {
  }

  lemma JobFileIsHistory(es: Events, jid: nat)
    requires ValidEvents(es)
    ensures jid in Run(es).jobs <==> Live(es, jid)
    ensures (jid in Run(es).jobs && Run(es).jobs[jid].file.Some?) <==> exists start: nat :: FileSince(es, jid, start)
    ensures forall start: nat :: FileSince(es, jid, start) ==>
              && ValidEvents(es[..start]) && jid in Run(es).jobs
              && Run(es).jobs[jid].file == Some([ConfigRec(TurnedOn, Run(es[..start]).tab)] + LeftSince(es, jid, start + 1))
  {
    hide Run, Live, LeftSince;
    LiveJobs(es, jid);
    forall start: nat | FileSince(es, jid, start)
      ensures ValidEvents(es[..start]) && jid in Run(es).jobs
      ensures Run(es).jobs[jid].file == Some([ConfigRec(TurnedOn, Run(es[..start]).tab)] + LeftSince(es, jid, start + 1))
    {
      FileHolds(es, jid, start);
    }
    if jid in Run(es).jobs && Run(es).jobs[jid].file.Some? {
      var start := FileOnlySince(es, jid);
    }
  }

  // The entry a process leaves in its job's file reads as four records: the base record and the memory, input/output and
  // delay records, each with the data of that process.
  lemma EntryOfProcess(t: Task)
    requires ValidTask(t)
    ensures var b := EopBytes(t, ALL_LINKS);
            && ReadEntry(b, 0, 0).Entry? && ReadEntry(b, 0, 0).next == |b|
            && var recs := ReadEntry(b, 0, 0).recs;
               && |recs| == 4
               && |recs[0]| >= 16 && recs[0][4] == 1 && recs[0][16..] == t.csaBody
               && |recs[1]| >= 8 && recs[1][4] == 2 && recs[1][8..] == t.memBody
               && |recs[2]| >= 8 && recs[2][4] == 4 && recs[2][8..] == t.ioBody
               && |recs[3]| >= 8 && recs[3][4] == 8 && recs[3][8..] == t.delayBody
  {
    hide EopBytes, ReadEntry, ValidTask;
    var b := EopBytes(t, ALL_LINKS);
    assert b[0..0 + |b|] == b;
    EopEntryParses(b, 0, t, ALL_LINKS);
    assert Kinds(ALL_LINKS) == [KERNEL_CSA, KERNEL_MEM, KERNEL_IO, KERNEL_DELAY];
  }

  // ---- The system file ----

  // A start request on a new file that the daemon accepts
  predicate OpensSystem(e: Event) {
    e.Start? && 0 <= e.req.num <= 12 && e.req.path == Regular
  }

  // Event k takes the system file away: a halt, or an accepted stop after which no kernel or daemon method is on.
  ghost predicate ClosesSystem(es: Events, k: nat)
    requires ValidEvents(es) && k < |es|
  {
    || es[k] == Halt
    || (es[k].Stop? && 0 <= es[k].req.num <= 12 && !AnyOn(Run(es[..k + 1]).tab.dmd))
  }

  // Event `start` opened the system file that is still open.
  ghost predicate SystemSince(es: Events, start: nat)
    requires ValidEvents(es)
  {
    && start < |es| && OpensSystem(es[start])
    && forall k :: start < k < |es| ==> !OpensSystem(es[k]) && !ClosesSystem(es, k)
  }

  // What a step does to the files: a new file is opened, the open one is closed and kept, or neither.
  lemma SystemStep(s: State, e: Event)
    requires ValidState(s) && ValidEvent(e)
    ensures var t := Step(s, e);
            var closes := e == Halt || (e.Stop? && 0 <= e.req.num <= 12 && !AnyOn(t.tab.dmd));
            && (OpensSystem(e) ==> t.sys == Some([ConfigRec(TurnedOn, t.tab)]))
            && (closes ==> t.sys == None)
            && (!OpensSystem(e) && !closes ==> t.sys.Some? == s.sys.Some? && t.closed == s.closed)
            && (OpensSystem(e) || closes ==> |t.closed| == |s.closed| + if s.sys.Some? then 1 else 0)
  {
    hide Mask, EopBytes, OverThresholds, Enabled, Collected, Set, TurnOn, TurnOff, AnyOn, Max, ConfigRec;
  }

  lemma SystemSinceEarlier(es: Events, start: nat)
    requires ValidEvents(es) && es != [] && start < |es| - 1
    ensures ValidEvents(es[..|es| - 1])
    ensures var n := |es| - 1;
            SystemSince(es, start) <==> SystemSince(es[..n], start) && !OpensSystem(es[n]) && !ClosesSystem(es, n)
  {
    hide Run, OpensSystem;
    var n := |es| - 1;
    var before := es[..n];
    forall k | 0 <= k < n
      ensures before[k] == es[k] && (ClosesSystem(before, k) <==> ClosesSystem(es, k))
    {
      assert before[..k + 1] == es[..k + 1];
    }
  }

  lemma ClosesNow(es: Events)
    requires ValidEvents(es) && es != []
    ensures var n := |es| - 1;
            ClosesSystem(es, n) <==> es[n] == Halt || (es[n].Stop? && 0 <= es[n].req.num <= 12 && !AnyOn(Run(es).tab.dmd))
  {
    hide Run;
    assert es[..|es|] == es;
  }

  lemma OpensNow(es: Events)
    requires ValidEvents(es) && es != [] && OpensSystem(es[|es| - 1])
    ensures SystemSince(es, |es| - 1)
  {
  }

  lemma {:induction false} OpenUntilClosed(es: Events, start: nat)
    requires ValidEvents(es) && SystemSince(es, start)
    ensures Run(es).sys.Some? && Run(es).sys.value != []
    ensures ValidEvents(es[..start + 1]) && Run(es).sys.value[0] == ConfigRec(TurnedOn, Run(es[..start + 1]).tab)
    decreases |es|
  {
    hide Step, Run, OpensSystem, ClosesSystem, ConfigRec, News;
    var n := |es| - 1;
    Split(es);
    SystemStep(Run(es[..n]), es[n]);
    ClosesNow(es);
    if start < n {
      SystemSinceEarlier(es, start);
      OpenUntilClosed(es[..n], start);
      assert es[..n][..start + 1] == es[..start + 1];
      SystemGrows(Run(es[..n]), es[n]);
    } else {
      assert es[..start + 1] == es;
    }
  }

  // While a file stays open, records are only added to it.
  lemma SystemGrows(s: State, e: Event)
    requires ValidState(s) && ValidEvent(e) && s.sys.Some? && !OpensSystem(e) && Step(s, e).sys.Some?
    ensures s.sys.value <= Step(s, e).sys.value
  {
    hide Mask, EopBytes, OverThresholds, Enabled, Collected, Set, TurnOn, TurnOff, AnyOn, Max, ConfigRec;
  }

  lemma {:induction false} OpenOnlySince(es: Events) returns (start: nat)
    requires ValidEvents(es) && Run(es).sys.Some?
    ensures SystemSince(es, start)
    decreases |es|
  {
    hide Step, Run, OpensSystem, ClosesSystem, ConfigRec;
    if es == [] {
      NothingOpen();
    }
    var n := |es| - 1;
    Split(es);
    SystemStep(Run(es[..n]), es[n]);
    ClosesNow(es);
    if OpensSystem(es[n]) {
      start := n;
      OpensNow(es);
    } else {
      start := OpenOnlySince(es[..n]);
      SystemSinceEarlier(es, start);
    }
  }

  lemma NothingOpen()
    ensures Run([]).sys == None
  {
  }

  // In every run: the system file is open exactly when some accepted start opened one and, since then, there was no halt
  // and no stop left all kernel and daemon methods off. It starts with the ON record of that start.
  lemma SystemFileIsHistory(es: Events)
    requires ValidEvents(es)
    ensures Run(es).sys.Some? <==> exists start: nat :: SystemSince(es, start)
    ensures forall start: nat :: SystemSince(es, start) ==>
              && Run(es).sys.Some? && Run(es).sys.value != [] && ValidEvents(es[..start + 1])
              && Run(es).sys.value[0] == ConfigRec(TurnedOn, Run(es[..start + 1]).tab)
  {
    hide Run, ConfigRec, OpensSystem, ClosesSystem;
    forall start: nat | SystemSince(es, start)
      ensures Run(es).sys.Some? && Run(es).sys.value != [] && ValidEvents(es[..start + 1])
      ensures Run(es).sys.value[0] == ConfigRec(TurnedOn, Run(es[..start + 1]).tab)
    {
      OpenUntilClosed(es, start);
    }
    if Run(es).sys.Some? {
      var start := OpenOnlySince(es);
    }
  }

  // What the end of a process adds to the open system file, for thresholds and sizes in their ordinary range: the base
  // record and the linked records that are on, if csa is on and the process is neither too small nor too short.
  lemma ExitInSystemFile(s: State, jid: nat, t: Task)
    requires ValidState(s) && ValidTask(t) && s.sys.Some?
    requires 0 <= Get(s.tab, THD_MEM).param < 0x8000_0000_0000_0000 && 0 <= Get(s.tab, THD_TIME).param < 0x8000_0000_0000_0000
    requires t.virtHimem < 0x1_0000_0000_0000_0000 && t.utime + t.stime < 0x1_0000_0000_0000_0000
    ensures var used := if t.utime + t.stime == 0 then 5000 else t.utime + t.stime;
            var mem, io, delay := Get(s.tab, RCD_MEM).on, Get(s.tab, RCD_IO).on, Get(s.tab, RCD_DELAY).on;
            Step(s, Exit(jid, t)).sys ==
            if && jid != 0 && jid in s.jobs && Get(s.tab, KERN_CSA).on
               && (Get(s.tab, THD_MEM).on && (mem || s.jobs[jid].file.Some?) ==> Get(s.tab, THD_MEM).param <= t.virtHimem)
               && (Get(s.tab, THD_TIME).on ==> Get(s.tab, THD_TIME).param <= used)
            then Some(s.sys.value + [Data(EopBytes(t, Links(mem, io, delay)))]) else s.sys
  {
    hide EopBytes, Max;
  }

  // ---- Replies ----

  // What the daemon answers, and that a refused request changes nothing; only AC_WRACCT may have written to the system file
  // before it finds that there is no such job.
  lemma Replies(s: State, req: Request, start: bool, jid: nat, path: Path, id: int, buf: seq<byte>)
    requires ValidState(s) && ValidRequest(req)
    ensures var (t, e) := StartStep(s, req);
            && e == (if req.num < 0 || req.num > 12 then EINVAL
                     else match req.path case Irregular => EACCES case NoPath => (if s.sys.Some? then Success else EINVAL)
                                         case Regular => Success)
            && (e != Success ==> t == s)
    ensures var (t, e) := StopStep(s, req);
            e == (if req.num < 0 || req.num > 12 then EINVAL else Success) && (e != Success ==> t == s)
    ensures var (t, e) := JaStartStep(s, jid, path);
            && e == (if path == NoPath then EINVAL else if path == Irregular then EACCES
                     else if jid != 0 && jid in s.jobs then Success else ENODATA)
            && (e != Success ==> t == s)
    ensures var (t, e) := JaStopStep(s, jid, path);
            && e == (if path == Irregular then EACCES else if jid != 0 && jid in s.jobs then Success else ENODATA)
            && (e != Success ==> t == s)
    ensures var (t, e) := WrAcctStep(s, id, jid, buf);
            && e == (if id < 0 || id > 4 || |buf| < 1 || |buf| > 1024 then EINVAL
                     else if jid in s.jobs then Success else ENODATA)
            && (e == EINVAL ==> t == s)
            && (e == ENODATA ==> t.jobs == s.jobs && t.tab == s.tab && t.closed == s.closed
                                 && t.sys == if s.sys.Some? && s.tab.dmd[id].on then Some(s.sys.value + [Data(buf)]) else s.sys)
  {
    hide TurnOn, TurnOff, Mask, ConfigRec;
  }
}
