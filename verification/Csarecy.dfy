// csarecy as it runs (csa/cmd/csarecy.c): entries are appended to pacct0, and boot headers rewritten in place once the
// bytes behind them are known.

module Csarecy {
  import opened Basics
  import opened AcctHeader
  import opened AcctWriter
  import opened AcctFile
  import opened RecycleSpec
  import RecycleLaws

  // ---- The jobs of the sorted file, in order ----

  function JobVisits(up: Uptime, jobs: seq<Job>, base: nat, answers: nat -> bool): (r: seq<Visit>)
    ensures |r| == |jobs|
  {
    if jobs == [] then []
    else JobVisits(up, jobs[..|jobs| - 1], base, answers) + [Visit(up, jobs[|jobs| - 1], answers(base + |jobs| - 1))]
  }

  function Visits(ups: seq<Uptime>, answers: nat -> bool): seq<Visit> {
    if ups == [] then []
    else
      var before := Visits(ups[..|ups| - 1], answers);
      before + JobVisits(ups[|ups| - 1], ups[|ups| - 1].jobs, |before|, answers)
  }

  lemma NothingVisited(answers: nat -> bool, opts: Options)
    ensures Visits([], answers) == [] && ScanAll([], opts) == NOTHING
  {
  }

  lemma NoJobVisits(up: Uptime, base: nat, answers: nat -> bool)
    ensures JobVisits(up, [], base, answers) == []
  {
  }

  lemma JobVisitsStep(up: Uptime, jobs: seq<Job>, j: nat, base: nat, answers: nat -> bool)
    requires j < |jobs|
    ensures JobVisits(up, jobs[..j + 1], base, answers)
            == JobVisits(up, jobs[..j], base, answers) + [Visit(up, jobs[j], answers(base + j))]
  {
    assert jobs[..j + 1][..j] == jobs[..j];
  }

  lemma VisitsStep(ups: seq<Uptime>, k: nat, answers: nat -> bool)
    requires k < |ups|
    ensures var before := Visits(ups[..k], answers);
            Visits(ups[..k + 1], answers) == before + JobVisits(ups[k], ups[k].jobs, |before|, answers)
  {
    hide JobVisits;
    assert ups[..k + 1][..k] == ups[..k];
  }

  lemma ScanAllStep(vs: seq<Visit>, v: Visit, opts: Options)
    ensures ScanAll(vs + [v], opts) == ScanJob(ScanAll(vs, opts), v, opts)
  {
    hide ScanJob;
    assert (vs + [v])[..|vs|] == vs;
  }

  // How many jobs the uptimes before number i have
  function JobsBefore(ups: seq<Uptime>, i: nat): nat
    requires i <= |ups|
  {
    if i == 0 then 0 else JobsBefore(ups, i - 1) + |ups[i - 1].jobs|
  }

  lemma {:induction false} JobVisitAt(up: Uptime, jobs: seq<Job>, base: nat, answers: nat -> bool, j: nat)
    requires j < |jobs|
    ensures JobVisits(up, jobs, base, answers)[j] == Visit(up, jobs[j], answers(base + j))
    decreases |jobs|
  {
    if j < |jobs| - 1 {
      JobVisitAt(up, jobs[..|jobs| - 1], base, answers, j);
    }
  }

  lemma {:induction false} JobsBeforeSame(ups: seq<Uptime>, n: nat, i: nat)
    requires i <= n <= |ups|
    ensures JobsBefore(ups[..n], i) == JobsBefore(ups, i)
    decreases i
  {
    if i > 0 {
      JobsBeforeSame(ups, n, i - 1);
    }
  }

  lemma {:induction false} VisitsLength(ups: seq<Uptime>, answers: nat -> bool)
    ensures |Visits(ups, answers)| == JobsBefore(ups, |ups|)
    decreases |ups|
  {
    if ups != [] {
      VisitsLength(ups[..|ups| - 1], answers);
      JobsBeforeSame(ups, |ups| - 1, |ups| - 1);
    }
  }

  // Every job of every uptime is visited once, in the order of the file, with the answer given at its turn.
  lemma {:induction false} VisitAt(ups: seq<Uptime>, answers: nat -> bool, i: nat, j: nat)
    requires i < |ups| && j < |ups[i].jobs|
    ensures |Visits(ups, answers)| == JobsBefore(ups, |ups|) > JobsBefore(ups, i) + j
    ensures Visits(ups, answers)[JobsBefore(ups, i) + j] == Visit(ups[i], ups[i].jobs[j], answers(JobsBefore(ups, i) + j))
    decreases |ups|
  {
    hide JobVisits;
    var n := |ups| - 1;
    VisitsLength(ups, answers);
    VisitsLength(ups[..n], answers);
    JobsBeforeSame(ups, n, n);
    JobsBeforeSame(ups, n, i);
    if i < n {
      VisitAt(ups[..n], answers, i, j);
    } else {
      JobVisitAt(ups[n], ups[n].jobs, |Visits(ups[..n], answers)|, answers, j);
    }
  }

  // ---- Rewriting a header ----

  lemma Grouped(a: seq<byte>, l: seq<byte>, h: seq<byte>, b: seq<byte>)
    ensures a + (l + h + b) == (a + l) + h + b
  {
  }

  lemma LayoutDefined(periods: seq<Period>, uname: seq<byte>)
    requires periods != [] && |uname| == UNAME_SIZE
    ensures var n := |periods| - 1;
            Layout(periods, uname) == Layout(periods[..n], uname) + BootHeader(periods[n], uname) + periods[n].bytes
  {
    hide BootHeader;
  }

  lemma LayoutLast(early: seq<byte>, periods: seq<Period>, uname: seq<byte>)
    requires periods != [] && |uname| == UNAME_SIZE
    ensures var n := |periods| - 1;
            early + Layout(periods, uname)
            == (early + Layout(periods[..n], uname)) + BootHeader(periods[n], uname) + periods[n].bytes
  {
    hide BootHeader, Layout;
    var n := |periods| - 1;
    LayoutDefined(periods, uname);
    Grouped(early, Layout(periods[..n], uname), BootHeader(periods[n], uname), periods[n].bytes);
  }

  lemma Splice(g: seq<byte>, h: seq<byte>, h2: seq<byte>, b: seq<byte>)
    requires |h| == |h2|
    ensures (g + h + b)[..|g|] + h2 + (g + h + b)[|g| + |h|..] == g + h2 + b
  {
  }

  // Overwriting the last boot header where it stands patches the length in.
  lemma Overwrite(early: seq<byte>, periods: seq<Period>, len: nat, uname: seq<byte>)
    requires periods != [] && |uname| == UNAME_SIZE
    ensures var f := early + Layout(periods, uname);
            var p := HeaderAt(early, periods, |periods| - 1);
            && p + SIZE_CFG <= |f|
            && f[..p] + BootHeader(periods[|periods| - 1].(len := len), uname) + f[p + SIZE_CFG..]
               == early + Layout(Patched(periods, len), uname)
  {
    hide BootHeader, Layout, HeaderAt;
    var n := |periods| - 1;
    var patched := Patched(periods, len);
    assert patched[..n] == periods[..n];
    LayoutLast(early, periods, uname);
    LayoutLast(early, patched, uname);
    LayoutSize(early, periods[..n], uname);
    HeaderAtBefore(early, periods);
    Splice(early + Layout(periods[..n], uname), BootHeader(periods[n], uname), BootHeader(patched[n], uname), periods[n].bytes);
  }

  lemma HeaderAtBefore(early: seq<byte>, periods: seq<Period>)
    requires periods != []
    ensures HeaderAt(early, periods[..|periods| - 1], |periods| - 1) == HeaderAt(early, periods, |periods| - 1)
  {
    if |periods| > 1 {
      HeaderAtWhole(early, periods, |periods| - 1);
    }
  }

  lemma AppendPeriod(early: seq<byte>, periods: seq<Period>, p: Period, uname: seq<byte>)
    requires |uname| == UNAME_SIZE && p.bytes == []
    ensures early + Layout(periods + [p], uname) == early + Layout(periods, uname) + BootHeader(p, uname)
    ensures HeaderAt(early, periods + [p], |periods|) == |early + Layout(periods, uname)|
  {
    hide BootHeader;
    assert (periods + [p])[..|periods|] == periods;
    LayoutSize(early, periods, uname);
    HeaderAtBefore(early, periods + [p]);
  }

  lemma AppendToLast(early: seq<byte>, before: seq<Period>, last: Period, b: seq<byte>, uname: seq<byte>)
    requires |uname| == UNAME_SIZE
    ensures early + Layout(before + [last.(bytes := last.bytes + b)], uname) == early + Layout(before + [last], uname) + b
    ensures HeaderAt(early, before + [last.(bytes := last.bytes + b)], |before|) == HeaderAt(early, before + [last], |before|)
  {
    hide BootHeader, Layout, HeaderAt;
    var s, t := before + [last], before + [last.(bytes := last.bytes + b)];
    assert s[..|before|] == before && t[..|before|] == before;
    HeaderAtBefore(early, s);
    HeaderAtBefore(early, t);
    LayoutLast(early, s, uname);
    LayoutLast(early, t, uname);
    SameHeader(last, b, uname);
    Regrouped(early + Layout(before, uname), BootHeader(last, uname), last.bytes, b);
  }

  // Writing at the end of the file
  lemma AppendBytes(s: Scan, b: seq<byte>, uname: seq<byte>)
    requires |uname| == UNAME_SIZE
    ensures var t := Written(s, b);
            t.early + Layout(t.periods, uname) == s.early + Layout(s.periods, uname) + b
  {
    hide BootHeader, Layout, HeaderAt;
    if s.periods != [] {
      LastWritten(s, b);
      AppendToLast(s.early, s.periods[..|s.periods| - 1], s.periods[|s.periods| - 1], b, uname);
    } else {
      NoPeriods(uname);
      assert (s.early + b) + [] == (s.early + []) + b;
    }
  }

  lemma LastWritten(s: Scan, b: seq<byte>)
    requires s.periods != []
    ensures var n := |s.periods| - 1;
            && s.periods == s.periods[..n] + [s.periods[n]]
            && Written(s, b) == s.(periods := s.periods[..n] + [s.periods[n].(bytes := s.periods[n].bytes + b)])
  {
  }

  lemma SameOffset(s: Scan, b: seq<byte>, uname: seq<byte>)
    requires s.periods != [] && |uname| == UNAME_SIZE
    ensures var t := Written(s, b);
            && |t.periods| == |s.periods|
            && HeaderAt(t.early, t.periods, |t.periods| - 1) == HeaderAt(s.early, s.periods, |s.periods| - 1)
            && t.periods[|t.periods| - 1] == s.periods[|s.periods| - 1].(bytes := s.periods[|s.periods| - 1].bytes + b)
  {
    hide Layout, HeaderAt;
    LastWritten(s, b);
    AppendToLast(s.early, s.periods[..|s.periods| - 1], s.periods[|s.periods| - 1], b, uname);
  }

  lemma Regrouped(g: seq<byte>, h: seq<byte>, a: seq<byte>, b: seq<byte>)
    ensures g + h + (a + b) == (g + h + a) + b
  {
  }

  lemma NoPeriods(uname: seq<byte>)
    requires |uname| == UNAME_SIZE
    ensures Layout([], uname) == []
  {
  }

  lemma SameHeader(p: Period, b: seq<byte>, uname: seq<byte>)
    requires |uname| == UNAME_SIZE
    ensures BootHeader(p.(bytes := p.bytes + b), uname) == BootHeader(p, uname)
  {
  }

  lemma PatchedSize(periods: seq<Period>, len: nat)
    ensures |Patched(periods, len)| == |periods|
  {
  }

  lemma PatchedHeader(p: Period, bytes: seq<byte>, uname: seq<byte>)
    requires |uname| == UNAME_SIZE
    ensures BootHeader(Period(p.start, p.stop, p.len, bytes), uname) == BootHeader(p, uname)
  {
  }

  class Recycler {
    const pacct0: AcctFile
    const uname: seq<byte>                // cfg_sysname
    const opts: Options
    var upStart: int                      // Up_hdr
    var upStop: int
    var upLen: nat
    var uptimeStop: int                   // uptime_stop
    var uphdrOffset: int
    var firstRec: bool
    var writeOk: bool
    var doReport: bool
    var nbytes: nat
    ghost var scan: Scan

    // The last boot header in the file still has length 0; the file is positioned at its end.
    ghost predicate Valid()
      reads this, pacct0
    {
      && |uname| == UNAME_SIZE && ValidOptions(opts)
      && pacct0.data == scan.early + Layout(scan.periods, uname) && pacct0.pos == |pacct0.data|
      && upLen == scan.len && uptimeStop == scan.stop
      && firstRec == scan.firstRec && writeOk == scan.writeOk && doReport == scan.report && nbytes == scan.counted
      && (if scan.periods == [] then uphdrOffset == -1
          else
            var last := scan.periods[|scan.periods| - 1];
            && uphdrOffset == HeaderAt(scan.early, scan.periods, |scan.periods| - 1)
            && upStart == last.start && upStop == last.stop && last.len == 0)
    }

    constructor (uname: seq<byte>, opts: Options)
      requires |uname| == UNAME_SIZE && ValidOptions(opts)
      ensures Valid() && scan == NOTHING && this.opts == opts && this.uname == uname && fresh(pacct0)
    {
      pacct0 := new AcctFile([]);
      this.uname, this.opts := uname, opts;
      upStart, upStop, upLen, uptimeStop, uphdrOffset := 0, 0, 0, 0, -1;
      firstRec, writeOk, doReport, nbytes := true, true, false, 0;
      scan := NOTHING;
    }

    // The part of Uptime_record that writes the final version of the last boot header
    method RewriteHeader()
      requires Valid()
      modifies pacct0
      ensures pacct0.data == scan.early + Layout(Patched(scan.periods, upLen), uname)
      ensures scan.periods == [] ==> pacct0.pos == old(pacct0.pos)
    {
      hide BootHeader, Layout;
      if uphdrOffset >= 0 {
        Overwrite(scan.early, scan.periods, upLen, uname);
        pacct0.SeekTo(uphdrOffset);
        var header := BootHeader(Period(upStart, upStop, upLen, []), uname);
        PatchedHeader(scan.periods[|scan.periods| - 1].(len := upLen), [], uname);
        pacct0.WriteAcct(header);
      }
    }

    // Uptime_record(TRUE)
    method UptimeRecord(up: Uptime)
      requires Valid()
      modifies this, pacct0
      ensures Valid() && scan == NewPeriod(old(scan), up)
    {
      hide BootHeader, Layout, HeaderAt, Patched;
      RewriteHeader();
      PatchedSize(scan.periods, scan.len);
      pacct0.SeekTo(|pacct0.data|);
      uphdrOffset := pacct0.pos;
      upLen, upStart, upStop, uptimeStop := 0, up.start, up.stop, up.stop;
      var header := BootHeader(Period(up.start, up.stop, 0, []), uname);
      AppendPeriod(scan.early, Patched(scan.periods, scan.len), Period(up.start, up.stop, 0, []), uname);
      pacct0.WriteAcct(header);
      scan := NewPeriod(scan, up);
    }

    // writeacctent at the end of the file
    method WriteEntry(e: Entry)
      requires Valid()
      modifies this`scan, pacct0
      ensures Valid() && scan == Written(old(scan), EntryBytes(e.slots))
    {
      hide BootHeader, Layout, EntryBytes;
      AppendBytes(scan, EntryBytes(e.slots), uname);
      if scan.periods != [] {
        SameOffset(scan, EntryBytes(e.slots), uname);
      }
      pacct0.WriteAcct(EntryBytes(e.slots));
      scan := Written(scan, EntryBytes(e.slots));
    }

    method PreserveRec(up: Uptime, job: Job, e: Entry, answer: bool) returns (ok: bool)
      requires Valid()
      modifies this, pacct0
      ensures Valid() && (scan, ok) == RecycleSpec.PreserveRec(old(scan), up, job, e, opts, answer)
    {
      hide BootHeader, Layout, EntryBytes, NewPeriod, Written, JobZero, HeaderAt;
      if JobZero(e) {
        return false;
      }
      if doReport {
        doReport := false;
        scan := scan.(report := false);
        if opts.ask {
          writeOk := answer;
          scan := scan.(writeOk := answer);
        }
      }
      if writeOk {
        if firstRec {
          if job.btime > uptimeStop {
            UptimeRecord(up);
          }
          firstRec := false;
          scan := scan.(firstRec := false);
        }
        WriteEntry(e);
      }
      ok := true;
    }

    // One of the three loops of preserve_job
    method PreserveSection(up: Uptime, job: Job, section: Section, es: seq<Entry>, answer: bool) returns (ok: bool)
      requires Valid()
      modifies this, pacct0
      ensures Valid() && (scan, ok) == PreserveAll(old(scan), up, job, section, es, opts, answer)
    {
      hide BootHeader, Layout, EntryBytes, RecycleSpec.PreserveRec, Counted, HeaderAt;
      var ind := 0;
      while ind < |es|
        invariant 0 <= ind <= |es| && Valid()
        invariant PreserveAll(old(scan), up, job, section, es[..ind], opts, answer) == (scan, true)
      {
        ghost var s := scan;
        var r := PreserveRec(up, job, es[ind], answer);
        assert es[..ind + 1][..ind] == es[..ind];
        if !r && section == Eop {
          assert PreserveAll(old(scan), up, job, section, es[..ind + 1], opts, answer) == (scan, false);
          GaveUp(old(scan), up, job, section, es, ind + 1, opts, answer);
          return false;
        }
        if writeOk {
          nbytes := nbytes + Counted(section, es[ind]);
          scan := scan.(counted := nbytes);
        }
        ind := ind + 1;
      }
      assert es[..ind] == es;
      ok := true;
    }

    method PreserveJob(v: Visit) returns (ok: bool)
      requires Valid()
      modifies this, pacct0
      ensures Valid() && (scan, ok) == RecycleSpec.PreserveJob(old(scan), v.up, v.job, opts, v.answer)
    {
      hide BootHeader, Layout, PreserveAll, HeaderAt;
      doReport, firstRec, writeOk, nbytes := opts.report, true, !opts.reportOnly, 0;
      scan := StartJob(scan, opts);
      ok := PreserveSection(v.up, v.job, Wkmg, v.job.wkmg, v.answer);
      if ok {
        ok := PreserveSection(v.up, v.job, Eop, v.job.eop, v.answer);
      }
      if ok {
        ok := PreserveSection(v.up, v.job, Rec, v.job.rec, v.answer);
      }
    }

    // One job of scan_spacct
    method VisitJob(v: Visit)
      requires Valid()
      modifies this, pacct0
      ensures Valid() && scan == ScanJob(old(scan), v, opts)
      ensures RecycleLaws.Ended(v.job.flags) ==> scan == old(scan) && pacct0.data == old(pacct0.data)
    {
      hide BootHeader, Layout, RecycleSpec.PreserveJob, Wanted, RecycleLaws.Ended, HeaderAt;
      RecycleLaws.WantedIs(v.job);
      if Wanted(v.job) {
        var ok := PreserveJob(v);
        if ok {
          upLen := upLen + nbytes;
          scan := scan.(len := upLen);
        }
      }
    }

    // scan_spacct: pacct0 ends up as specified, whatever the answers.
    method ScanSpacct(ups: seq<Uptime>, answers: nat -> bool)
      requires Valid() && scan == NOTHING
      modifies this, pacct0
      ensures pacct0.data == Pacct0(Visits(ups, answers), opts, uname)
    {
      hide BootHeader, Layout, ScanJob, HeaderAt, RecycleLaws.Ended, JobVisits, Visits, ScanAll;
      ghost var vs: seq<Visit> := [];
      var n: nat := 0;
      NothingVisited(answers, opts);
      for k := 0 to |ups|
        invariant Valid() && vs == Visits(ups[..k], answers) && n == |vs| && scan == ScanAll(vs, opts)
      {
        ghost var before := vs;
        NoJobVisits(ups[k], |before|, answers);
        VisitsStep(ups, k, answers);
        var jobs := ups[k].jobs;
        for j := 0 to |jobs|
          invariant Valid() && scan == ScanAll(vs, opts)
          invariant vs == before + JobVisits(ups[k], jobs[..j], |before|, answers) && n == |before| + j
        {
          var v := Visit(ups[k], jobs[j], answers(n));
          JobVisitsStep(ups[k], jobs, j, |before|, answers);
          ScanAllStep(vs, v, opts);
          VisitJob(v);
          vs := vs + [v];
          n := n + 1;
        }
        assert jobs[..|jobs|] == jobs;
      }
      assert ups[..|ups|] == ups;
      RewriteHeader();
    }
  }
}
