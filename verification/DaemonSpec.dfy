// What the accounting daemon's requests and events mean (csa/csad/csa.c, csa_job.c, csa_daemon.c): one step of the
// select loop at a time, on tables, open files and jobs as values.

module DaemonSpec {
  import opened Basics
  import opened Eop

  // ---- Tables ----

  // Method indices: kernel and daemon methods, a gap at ACCT_MAXKDS, then linked records and thresholds
  const KERN_CSA: nat := 0
  const MAXKDS: nat := 5
  const RCDS: nat := 6
  const RCD_MEM: nat := 6
  const RCD_IO: nat := 7
  const RCD_DELAY: nat := 8
  const THD_MEM: nat := 9
  const THD_TIME: nat := 10
  const MAXRCDS: nat := 13
  const NUM_RCDS: nat := 7
  const NUM_KDRCDS: nat := 12
  const MAX_WRACCT: nat := 1024

  // Half a clock tick, in microseconds, with HZ at 100
  const HALF_TICK: nat := 5000

  datatype Stat = Stat(on: bool, param: int)

  datatype Tables = Tables(dmd: seq<Stat>, rcd: seq<Stat>)

  ghost predicate ValidTables(tab: Tables) {
    |tab.dmd| == MAXKDS && |tab.rcd| == NUM_RCDS
  }

  // The indices the request checks let pass
  predicate MethodId(id: int) {
    0 <= id < MAXRCDS && id != MAXKDS
  }

  function Get(tab: Tables, id: int): Stat
    requires ValidTables(tab) && MethodId(id)
  {
    if id < RCDS then tab.dmd[id] else tab.rcd[id - RCDS]
  }

  function Set(tab: Tables, id: int, stat: Stat): (r: Tables)
    requires ValidTables(tab) && MethodId(id)
    ensures ValidTables(r)
    ensures forall i :: MethodId(i) ==> Get(r, i) == if i == id then stat else Get(tab, i)
  {
    if id < RCDS then tab.(dmd := tab.dmd[id := stat]) else tab.(rcd := tab.rcd[id - RCDS := stat])
  }

  const OFF: Stat := Stat(false, 0)
  const ALL_OFF: Tables := Tables([OFF, OFF, OFF, OFF, OFF], [OFF, OFF, OFF, OFF, OFF, OFF, OFF])

  // One entry of a request: a method and its parameter
  datatype Method = Method(id: int, param: int)

  function TurnOn(tab: Tables, stats: seq<Method>): (r: Tables)
    requires ValidTables(tab) && forall m :: m in stats ==> MethodId(m.id)
    ensures ValidTables(r)
  {
    if stats == [] then tab
    else
      var last := stats[|stats| - 1];
      Set(TurnOn(tab, stats[..|stats| - 1]), last.id, Stat(true, last.param))
  }

  function TurnOff(tab: Tables, stats: seq<Method>): (r: Tables)
    requires ValidTables(tab) && forall m :: m in stats ==> MethodId(m.id)
    ensures ValidTables(r)
  {
    if stats == [] then tab else Set(TurnOff(tab, stats[..|stats| - 1]), stats[|stats| - 1].id, OFF)
  }

  predicate Named(stats: seq<Method>, id: int) {
    exists k :: 0 <= k < |stats| && stats[k].id == id
  }

  predicate AnyOn(stats: seq<Stat>) {
    exists k :: 0 <= k < |stats| && stats[k].on
  }

  // ---- Records ----

  datatype ConfigEvent = FileChange | TurnedOn | TurnedOff

  datatype Rec =
    | Config(event: ConfigEvent, kdmask: nat, rmask: nat)
    | StartOfJob(jid: nat)
    | EndOfJob(jid: nat, core: nat, virt: nat)
    | Data(bytes: seq<byte>)                       // an end-of-process entry, or what a daemon handed in

  function Power(i: nat): (r: nat)
    ensures r > 0
  {
    if i == 0 then 1 else 2 * Power(i - 1)
  }

  // Bit i of a mask
  predicate Bit(mask: nat, i: nat) {
    mask / Power(i) % 2 == 1
  }

  // One bit for each method that is on
  function Mask(stats: seq<Stat>): nat {
    if stats == [] then 0
    else Mask(stats[..|stats| - 1]) + if stats[|stats| - 1].on then Power(|stats| - 1) else 0
  }

  function ConfigRec(event: ConfigEvent, tab: Tables): Rec {
    Config(event, Mask(tab.dmd), Mask(tab.rcd))
  }

  // ---- Daemon state ----

  type Log = seq<Rec>

  datatype Job = Job(core: nat, virt: nat, file: Option<Log>)

  // `sys` is what was written to the open system file since it was opened; `closed` are the earlier files, in order.
  datatype State = State(tab: Tables, sys: Option<Log>, closed: seq<Log>, jobs: map<nat, Job>)

  const INIT: State := State(ALL_OFF, None, [], map[])

  function Append(log: Option<Log>, r: Rec): Option<Log> {
    match log
    case None => None
    case Some(l) => Some(l + [r])
  }

  // ---- Events ----

  // The file named in a request: none, one that cannot be opened or is no regular file, or a usable one
  datatype Path = NoPath | Irregular | Regular

  datatype Request = Request(num: int, path: Path, stats: seq<Method>)

  datatype Errno = Success | EINVAL | EACCES | ENODATA

  datatype Event =
    | Start(req: Request)
    | Stop(req: Request)
    | Halt
    | JaStart(jid: nat, path: Path)
    | JaStop(jid: nat, path: Path)
    | WrAcct(id: int, jid: nat, buf: seq<byte>)
    | Exit(jid: nat, task: Task)
    | JobStart(jid: nat)
    | JobEnd(jid: nat)

  // The entries of a request that count; a count of 0 means one entry
  function Entries(req: Request): (r: seq<Method>)
    requires |req.stats| == NUM_KDRCDS && 0 <= req.num <= NUM_KDRCDS
  {
    req.stats[..if req.num == 0 then 1 else req.num]
  }

  ghost predicate ValidRequest(req: Request) {
    && |req.stats| == NUM_KDRCDS
    && (0 <= req.num <= NUM_KDRCDS ==> forall m :: m in Entries(req) ==> MethodId(m.id))
  }

  ghost predicate ValidEvent(e: Event) {
    match e
    case Start(req) => ValidRequest(req)
    case Stop(req) => ValidRequest(req)
    case Exit(_, task) => ValidTask(task)
    case _ => true
  }

  ghost predicate ValidState(s: State) {
    ValidTables(s.tab)
  }

  // ---- Steps ----

  function StartStep(s: State, req: Request): (State, Errno)
    requires ValidState(s) && ValidRequest(req)
  {
    if req.num < 0 || req.num > NUM_KDRCDS then (s, EINVAL)
    else if req.path == Irregular then (s, EACCES)
    else if req.path == NoPath && s.sys == None then (s, EINVAL)
    else
      var tab := TurnOn(s.tab, Entries(req));
      var on := ConfigRec(TurnedOn, tab);
      if req.path == NoPath then (s.(tab := tab, sys := Append(s.sys, on)), Success)
      else
        var closed := match s.sys case None => s.closed case Some(l) => s.closed + [l + [ConfigRec(FileChange, s.tab)]];
        (s.(tab := tab, sys := Some([on]), closed := closed), Success)
  }

  // Note OFF in the system file, and close it when asked.
  function SwitchedOff(s: State, close: bool): State {
    var off := Append(s.sys, ConfigRec(TurnedOff, s.tab));
    if close && off.Some? then s.(sys := None, closed := s.closed + [off.value]) else s.(sys := off)
  }

  function StopStep(s: State, req: Request): (State, Errno)
    requires ValidState(s) && ValidRequest(req)
  {
    if req.num < 0 || req.num > NUM_KDRCDS then (s, EINVAL)
    else
      var tab := TurnOff(s.tab, Entries(req));
      (SwitchedOff(s.(tab := tab), !AnyOn(tab.dmd)), Success)
  }

  function HaltStep(s: State): (State, Errno) {
    (SwitchedOff(s.(tab := ALL_OFF), true), Success)
  }

  function JaStartStep(s: State, jid: nat, path: Path): (State, Errno)
    requires ValidState(s)
  {
    if path == NoPath then (s, EINVAL)
    else if path == Irregular then (s, EACCES)
    else if jid == 0 || jid !in s.jobs then (s, ENODATA)
    else
      var on := ConfigRec(TurnedOn, s.tab);
      (s.(sys := Append(s.sys, on), jobs := s.jobs[jid := s.jobs[jid].(file := Some([on]))]), Success)
  }

  function JaStopStep(s: State, jid: nat, path: Path): (State, Errno) {
    if path == Irregular then (s, EACCES)
    else if jid == 0 || jid !in s.jobs then (s, ENODATA)
    else (s.(jobs := s.jobs[jid := s.jobs[jid].(file := None)]), Success)
  }

  function WrAcctStep(s: State, id: int, jid: nat, buf: seq<byte>): (State, Errno)
    requires ValidState(s)
  {
    if id < 0 || id >= MAXKDS || |buf| == 0 || |buf| > MAX_WRACCT then (s, EINVAL)
    else
      var s1 := if s.tab.dmd[id].on then s.(sys := Append(s.sys, Data(buf))) else s;
      if jid !in s.jobs then (s1, ENODATA)
      else (s1.(jobs := s.jobs[jid := s.jobs[jid].(file := Append(s.jobs[jid].file, Data(buf)))]), Success)
  }

  function Max(a: nat, b: nat): nat {
    if a < b then b else a
  }

  // The linked records the tables ask for
  function Enabled(tab: Tables): Links
    requires ValidTables(tab)
  {
    Links(Get(tab, RCD_MEM).on, Get(tab, RCD_IO).on, Get(tab, RCD_DELAY).on)
  }

  // The linked records the buffer holds: all of them when the job has a file of its own
  function Collected(tab: Tables, ja: bool): Links
    requires ValidTables(tab)
  {
    Links(ja || Get(tab, RCD_MEM).on, ja || Get(tab, RCD_IO).on, ja || Get(tab, RCD_DELAY).on)
  }

  // A number as uint64_t
  function Unsigned(n: int): nat {
    n % 0x1_0000_0000_0000_0000
  }

  function CpuTime(t: Task): nat {
    if t.utime == 0 && t.stime == 0 then HALF_TICK else Unsigned(t.utime + t.stime)
  }

  // Large enough and long enough for the system file; the usage is unsigned, so the signed thresholds are taken as such.
  predicate OverThresholds(tab: Tables, ja: bool, t: Task)
    requires ValidTables(tab)
  {
    && (Get(tab, THD_MEM).on && (ja || Get(tab, RCD_MEM).on) ==> Unsigned(t.virtHimem) >= Unsigned(Get(tab, THD_MEM).param))
    && (Get(tab, THD_TIME).on ==> CpuTime(t) >= Unsigned(Get(tab, THD_TIME).param))
  }

  function ExitStep(s: State, jid: nat, t: Task): State
    requires ValidState(s)
  {
    if jid == 0 || jid !in s.jobs then s
    else
      var job := s.jobs[jid];
      var ja, csa := job.file.Some?, s.tab.dmd[KERN_CSA].on;
      if !ja && !csa then s
      else
        var links := Collected(s.tab, ja);
        var job1 := Job(if links.mem then Max(job.core, t.coreHimem) else job.core,
                        if links.mem then Max(job.virt, t.virtHimem) else job.virt,
                        Append(job.file, Data(EopBytes(t, links))));
        var s1 := s.(jobs := s.jobs[jid := job1]);
        if csa && OverThresholds(s.tab, ja, t) then s1.(sys := Append(s.sys, Data(EopBytes(t, Enabled(s.tab))))) else s1
  }

  function JobStartStep(s: State, jid: nat): State {
    if jid in s.jobs then s
    else s.(jobs := s.jobs[jid := Job(0, 0, None)], sys := Append(s.sys, StartOfJob(jid)))
  }

  function JobEndStep(s: State, jid: nat): State {
    if jid !in s.jobs then s
    else s.(jobs := s.jobs - {jid}, sys := Append(s.sys, EndOfJob(jid, s.jobs[jid].core, s.jobs[jid].virt)))
  }

  function Step(s: State, e: Event): (r: State)
    requires ValidState(s) && ValidEvent(e)
    ensures ValidState(r)
  {
    match e
    case Start(req) => StartStep(s, req).0
    case Stop(req) => StopStep(s, req).0
    case Halt => HaltStep(s).0
    case JaStart(jid, path) => JaStartStep(s, jid, path).0
    case JaStop(jid, path) => JaStopStep(s, jid, path).0
    case WrAcct(id, jid, buf) => WrAcctStep(s, id, jid, buf).0
    case Exit(jid, task) => ExitStep(s, jid, task)
    case JobStart(jid) => JobStartStep(s, jid)
    case JobEnd(jid) => JobEndStep(s, jid)
  }

  type Events = seq<Event>

  ghost predicate ValidEvents(es: Events) {
    forall k :: 0 <= k < |es| ==> ValidEvent(es[k])
  }

  // The state after a run from the daemon's start
  function Run(es: Events): (s: State)
    requires ValidEvents(es)
    ensures ValidState(s)
  {
    if es == [] then INIT else Step(Run(es[..|es| - 1]), es[|es| - 1])
  }
}
