// What csaverify's main loop does to a file, as a state machine over byte positions, and what every run of it keeps.

module VerifySpec {
  import opened Basics
  import opened AcctHeader
  import opened AcctReader

  // Length written for a range that reaches the end of the file
  const END_OF_FILE: int := -1

  // ---- Recognising primary headers ----

  // check_primary_hdr: a complete, current header of a type that starts an entry
  predicate PrimaryHeader(h: Achead) {
    && h.magic == ACCT_MAGIC
    && (SiteType(h.kind) || (StructSize(h.kind) > 0 && !LinkedType(h.kind)))
    && h.revision == RevTab(h.kind)
    && (StructSize(h.kind) > 0 ==> h.size == StructSize(h.kind))
  }

  predicate LinkedType(kind: int) {
    kind == KERNEL_MEM || kind == KERNEL_IO || kind == KERNEL_DELAY
  }

  predicate PrimaryAt(f: seq<byte>, p: nat) {
    p + HDR_SIZE <= |f| && PrimaryHeader(Decode(f[p..p + HDR_SIZE]))
  }

  // The first primary header at or after p; |f| when there is none.
  function FirstPrimary(f: seq<byte>, p: nat): (h: nat)
    requires p <= |f|
    ensures p <= h <= |f|
    ensures h < |f| ==> PrimaryAt(f, h)
    ensures forall q :: p <= q < h ==> !PrimaryAt(f, q)
    decreases |f| - p
  {
    if p == |f| || PrimaryAt(f, p) then p else FirstPrimary(f, p + 1)
  }

  // ---- Judging one entry ----

  // What invalid_pacct says of an entry. The verifier is studied for every such judge.
  datatype Verdict = NoError | HeaderError | OtherError
  type Judge = seq<seq<byte>> -> Verdict

  // Facts about the whole input file that stay fixed during a run.
  datatype FileKind = FileKind(sorted: bool, recycled: bool)

  datatype Primary = Valid | CannotBePrimary | IllegallyLinked | WrongKind

  predicate HasKind(recs: seq<seq<byte>>, kind: int)
    requires forall k :: 0 <= k < |recs| ==> |recs[k]| >= HDR_SIZE
  {
    exists k :: 0 <= k < |recs| && Decode(recs[k]).kind == kind
  }

  // wkmgmtbs.type == WM_CON; the type is a short at offset 16
  predicate Consolidated(rec: seq<byte>) {
    |rec| >= 18 && U16(rec[16], rec[17]) == 6
  }

  // The record in the slot of workload management records: the last one of the entry
  function LastWkmg(recs: seq<seq<byte>>): (r: seq<byte>)
    requires recs != []
    requires forall k :: 0 <= k < |recs| ==> |recs[k]| >= HDR_SIZE
    ensures r in recs
  {
    var n := |recs| - 1;
    if n == 0 || Decode(recs[n]).kind == DAEMON_WKMG then recs[n] else LastWkmg(recs[..n])
  }

  // verify_primary
  function VerifyPrimary(kind: FileKind, recs: seq<seq<byte>>): Primary
    requires recs != []
    requires forall k :: 0 <= k < |recs| ==> |recs[k]| >= HDR_SIZE
  {
    var h := Decode(recs[0]);
    if h.kind == KERNEL_CSA then
      if HasKind(recs, KERNEL_SOJ) || HasKind(recs, KERNEL_EOJ) || HasKind(recs, KERNEL_CFG)
         || HasKind(recs, JOB_HEADER) || HasKind(recs, DAEMON_WKMG)
         || exists k :: 0 <= k < |recs| && SiteType(Decode(recs[k]).kind)
      then IllegallyLinked else Valid
    else if LinkedType(h.kind) then CannotBePrimary
    else if h.kind == DAEMON_WKMG && kind.sorted && !Consolidated(LastWkmg(recs)) then WrongKind
    else if h.kind == DAEMON_WKMG && !kind.sorted && Consolidated(LastWkmg(recs)) && !kind.recycled then WrongKind
    else if h.kind == JOB_HEADER && !kind.sorted then WrongKind
    else if SiteType(h.kind) then Valid
    else if More(h.flag) then IllegallyLinked
    else Valid
  }

  // ---- One iteration of the loop ----

  datatype Range = Range(loc: nat, len: int)

  datatype Step =
    | Stop                                // readacctent reached the end of the file
    | Quit(bad: Range)                    // a last range is reported, up to the end of the file
    | Accept(next: nat)                   // a good entry ends at next
    | Flag(bad: Range, next: nat)         // a range starting at prev_loc is reported
    | Retract(bad: Range, next: nat)      // the previous record is reported as incomplete

  // check_last_read_rec
  function Resync(f: seq<byte>, prevprev: nat, prev: nat): (s: Step)
    requires prevprev <= prev < |f|
    ensures s.Quit? || s.Flag? || s.Retract?
    ensures !s.Quit? ==> prevprev < s.next < |f| && PrimaryAt(f, s.next) && forall q :: prevprev < q < s.next ==> !PrimaryAt(f, q)
    ensures s.Retract? <==> exists q :: prevprev < q < prev && PrimaryAt(f, q)
    ensures s.Quit? <==> forall q :: prevprev < q < |f| ==> !PrimaryAt(f, q)
    ensures s.Quit? ==> s.bad == Range(prev, END_OF_FILE)
    ensures s.Flag? ==> s.bad == Range(prev, s.next - prev)
    ensures s.Retract? ==> s.bad == Range(prevprev, s.next - prevprev)
  {
    var h := FirstPrimary(f, prevprev + 1);
    if h == |f| then Quit(Range(prev, END_OF_FILE))
    else if h >= prev then Flag(Range(prev, h - prev), h)
    else Retract(Range(prevprev, h - prevprev), h)
  }

  // What the loop makes of the bytes at p, before any resynchronisation.
  datatype Reading =
    | Finished
    | Unreadable
    | NeedsResync
    | Good(next: nat)
    | Linked
    | Other(next: nat)

  function Reads(f: seq<byte>, p: nat, kind: FileKind, judge: Judge): (r: Reading)
    requires p <= |f|
    ensures r.Good? || r.Other? ==> p + HDR_SIZE <= r.next <= |f|
    ensures p == |f| ==> r.Finished?
  {
    match ReadEntry(f, p, 0)
    case AtEnd => Finished
    case Failed(code) => if code == -1 then NeedsResync else Unreadable
    case Entry(recs, next) =>
      match judge(recs)
      case HeaderError => NeedsResync
      case OtherError => Other(next)
      case NoError =>
        match VerifyPrimary(kind, recs)
        case Valid => Good(next)
        case CannotBePrimary => NeedsResync
        case IllegallyLinked => Linked
        case WrongKind => Other(next)
  }

  function NextStep(f: seq<byte>, prevprev: nat, prev: nat, kind: FileKind, judge: Judge): (s: Step)
    requires prevprev <= prev <= |f|
  {
    match Reads(f, prev, kind, judge)
    case Finished => Stop
    case Unreadable => Quit(Range(prev, END_OF_FILE))
    case NeedsResync => Resync(f, prevprev, prev)
    case Good(next) => Accept(next)
    case Other(next) => Flag(Range(prev, next - prev), next)
    case Linked =>
      var h := FirstPrimary(f, prev + 1);
      if h == |f| then Quit(Range(prev, END_OF_FILE)) else Flag(Range(prev, h - prev), h)
  }

  // ---- A whole run ----

  // err_offset: a second report at the location just reported replaces it
  function Emit(ranges: seq<Range>, r: Range): seq<Range> {
    if ranges != [] && ranges[|ranges| - 1].loc == r.loc then ranges[..|ranges| - 1] + [r] else ranges + [r]
  }

  // Stretches of the input the run has decided on, in order; good ones are accepted entries.
  datatype Tile = Tile(lo: nat, hi: nat, good: bool)

  datatype Scan = Scan(prevprev: nat, prev: nat, ranges: seq<Range>, tiles: seq<Tile>)

  const START: Scan := Scan(0, 0, [], [])

  ghost predicate InFile(f: seq<byte>, s: Scan) {
    s.prevprev <= s.prev <= |f|
  }

  // The state after a step that does not end the run.
  function Advance(s: Scan, step: Step): Scan
    requires step.Accept? || step.Flag? || step.Retract?
  {
    match step
    case Accept(next) => Scan(s.prev, next, s.ranges, s.tiles + [Tile(s.prev, next, true)])
    case Flag(bad, next) =>
      Scan(s.prev, next, Emit(s.ranges, bad), if next == s.prev then s.tiles else s.tiles + [Tile(s.prev, next, false)])
    case Retract(bad, next) =>
      Scan(s.prevprev, next, Emit(s.ranges, bad),
           (if s.tiles == [] then [] else s.tiles[..|s.tiles| - 1]) + [Tile(s.prevprev, next, false)])
  }

  // Second component of the measure: how often the scan can still move before prevprev_loc does.
  function Rank(f: seq<byte>, s: Scan): nat
    requires InFile(f, s)
  {
    if s.prev == s.prevprev then 2
    else if s.prev > FirstPrimary(f, s.prevprev + 1) then 1
    else 0
  }

  // prev_loc can move backward, yet (|f| - prevprev_loc, Rank) decreases with every step that continues.
  lemma StepDescends(f: seq<byte>, s: Scan, kind: FileKind, judge: Judge)
    requires InFile(f, s)
    requires var step := NextStep(f, s.prevprev, s.prev, kind, judge); !step.Stop? && !step.Quit?
    ensures var t := Advance(s, NextStep(f, s.prevprev, s.prev, kind, judge));
            InFile(f, t) && s.prevprev <= t.prevprev && (s.prevprev == t.prevprev ==> Rank(f, t) < Rank(f, s))
  {
    hide Reads;
  }

  // The run of the loop from s; the ranges it returns are the offset file.
  function Run(f: seq<byte>, s: Scan, kind: FileKind, judge: Judge): Scan
    requires InFile(f, s)
    decreases |f| - s.prevprev, Rank(f, s)
  {
    match NextStep(f, s.prevprev, s.prev, kind, judge)
    case Stop => s
    case Quit(bad) => s.(ranges := Emit(s.ranges, bad))
    case step =>
      StepDescends(f, s, kind, judge);
      Run(f, Advance(s, step), kind, judge)
  }
}
