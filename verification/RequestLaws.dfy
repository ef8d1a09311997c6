// Where each record of a workload management request lands, and what it changes there.

module RequestLaws {
  import opened Basics
  import opened RequestSpec

  // The end of a segment that takes a record: a process may move it later, the end of a job sets it.
  function EndAfter(was: int, p: Proc): int {
    match p
    case Csa(_, _, _, _, etime, _) => if was < etime then etime else was
    case Eoj(_, _, _, etime) => etime
    case _ => was
  }

  // The end of a segment that is made for a record
  function EndAtFirst(p: Proc): int {
    match p
    case Csa(_, _, _, _, etime, _) => etime
    case Eoj(_, _, _, etime) => etime
    case Soj(_, _, btime) => btime
    case Cfg => 0
  }

  // The project and the usage of a record; only those of processes have them.
  function Project(p: Proc): int {
    if p.Csa? then p.prid else -2
  }

  function Usage(p: Proc): nat {
    if p.Csa? then p.stime else 0
  }

  // The entry is one of the user, and one of the two has no project or they have the same.
  predicate TakesUsage(u: Use, p: Proc)
    requires !p.Cfg?
  {
    u.uid == p.uid && (u.prid == -2 || Project(p) == -2 || u.prid == Project(p))
  }

  // The chain of a segment before and after: the first entry that takes the usage has it added, and the project if it had
  // none; a new one is behind the others if there is none.
  ghost predicate UsageAdded(before: seq<Use>, after: seq<Use>, p: Proc)
    requires !p.Cfg?
  {
    || (&& (forall i :: 0 <= i < |before| ==> !TakesUsage(before[i], p))
        && after == before + [Use(p.uid, Project(p), Usage(p))])
    || (exists a :: 0 <= a < |before| && TakesUsage(before[a], p) && (forall i :: 0 <= i < a ==> !TakesUsage(before[i], p))
          && after == before[a := Use(p.uid, if before[a].prid == -2 then Project(p) else before[a].prid, before[a].stime + Usage(p))])
  }

  // From segment k0 on: all segments before this one belong to other jobs and are passed by.
  ghost predicate SearchedTo(segs: seq<Segment>, k0: nat, n: nat, p: Proc)
    requires n <= |segs| && !p.Cfg?
  {
    k0 <= n && forall j :: k0 <= j < n ==> segs[j].jid != p.jid && PassedBy(segs, j, p.jid, p.btime)
  }

  // The record goes to the first segment of its job, or to a new one ahead of the first that is not passed by, or at the end.
  ghost predicate Lands(segs: seq<Segment>, k0: nat, p: Proc, t: Req)
    requires !p.Cfg?
  {
    || (&& t.curr < |segs| && SearchedTo(segs, k0, t.curr, p) && segs[t.curr].jid == p.jid
        && var s, u := segs[t.curr], if t.curr < |t.segs| then t.segs[t.curr] else segs[t.curr];
           && t.segs == segs[t.curr := u] && u.jid == p.jid
           && u.startTime == (if p.btime < s.startTime then p.btime else s.startTime) && u.endTime == EndAfter(s.endTime, p)
           && UsageAdded(s.uses, u.uses, p))
    || (&& k0 <= t.curr <= |segs| && SearchedTo(segs, k0, t.curr, p)
        && (t.curr < |segs| ==> segs[t.curr].jid != p.jid && !PassedBy(segs, t.curr, p.jid, p.btime))
        && t.segs == Inserted(segs, t.curr, Segment(p.jid, p.btime, EndAtFirst(p), [Use(p.uid, Project(p), Usage(p))])))
  }

  lemma TakesIsFits(u: Use, p: Proc)
    requires !p.Cfg?
    ensures TakesUsage(u, p) <==> Fits(u, p.uid, PridOf(p))
  {
  }

  // What find_wm and wm_process make of a chain: `a` is the first entry that fits.
  lemma ChainAfter(uses: seq<Use>, p: Proc, a: nat)
    requires !p.Cfg? && a == FirstFit(uses, 0, p.uid, PridOf(p))
    ensures var all := FindUse(uses, p.uid, PridOf(p));
            a < |all| && all[a := all[a].(stime := all[a].stime + StimeOf(p))] ==
            if a == |uses| then uses + [Use(p.uid, Project(p), Usage(p))]
            else uses[a := Use(p.uid, if uses[a].prid == -2 then Project(p) else uses[a].prid, uses[a].stime + Usage(p))]
  {
    hide FirstFit;
    var all := FindUse(uses, p.uid, PridOf(p));
    if a == |uses| {
      assert all[a := all[a].(stime := all[a].stime + StimeOf(p))] == uses + [Use(p.uid, Project(p), Usage(p))];
    }
  }

  lemma UsesAfter(uses: seq<Use>, p: Proc)
    requires !p.Cfg?
    ensures var a, all := FirstFit(uses, 0, p.uid, PridOf(p)), FindUse(uses, p.uid, PridOf(p));
            UsageAdded(uses, all[a := all[a].(stime := all[a].stime + StimeOf(p))], p)
  {
    hide Fits, FindUse, TakesUsage, UsageAdded;
    var a := FirstFit(uses, 0, p.uid, PridOf(p));
    forall i | 0 <= i < |uses|
      ensures TakesUsage(uses[i], p) <==> Fits(uses[i], p.uid, PridOf(p))
    {
      TakesIsFits(uses[i], p);
    }
    ChainAfter(uses, p, a);
    AddedAt(uses, p, a);
  }

  lemma AddedAt(uses: seq<Use>, p: Proc, a: nat)
    requires !p.Cfg? && a <= |uses| && (a < |uses| ==> TakesUsage(uses[a], p)) && forall i :: 0 <= i < a ==> !TakesUsage(uses[i], p)
    ensures UsageAdded(uses, if a == |uses| then uses + [Use(p.uid, Project(p), Usage(p))]
                             else uses[a := Use(p.uid, if uses[a].prid == -2 then Project(p) else uses[a].prid,
                                                uses[a].stime + Usage(p))], p)
  {
    hide TakesUsage;
  }

  lemma LandsInSegment(r: Req, p: Proc, k: nat)
    requires Positioned(r) && !p.Cfg? && FindSeg(r.segs, StartPlace(r, p.btime), p.jid, p.btime) == Same(k)
    ensures Lands(r.segs, StartPlace(r, p.btime), p, Process(r, p))
  {
    hide FindSeg, FirstFit, FindUse, StartPlace, UsageAdded, PassedBy;
    SearchEnds(r.segs, StartPlace(r, p.btime), p.jid, p.btime);
    UsesAfter(r.segs[k].uses, p);
  }

  lemma LandsInNew(r: Req, p: Proc, k: nat)
    requires Positioned(r) && !p.Cfg?
    requires var h := FindSeg(r.segs, StartPlace(r, p.btime), p.jid, p.btime); h == Ahead(k) || (k > 0 && h == Behind(k - 1))
    ensures Lands(r.segs, StartPlace(r, p.btime), p, Process(r, p))
  {
    hide FindSeg, FirstFit, FindUse, StartPlace, UsageAdded, PassedBy;
    SearchEnds(r.segs, StartPlace(r, p.btime), p.jid, p.btime);
    var s0 := Segment(p.jid, p.btime, EndOf(p), [Use(p.uid, PridOf(p), 0)]);
    var s1 := Counted(s0, 0, p);
    assert s1 == Segment(p.jid, p.btime, EndAtFirst(p), [Use(p.uid, Project(p), Usage(p))]);
    assert Inserted(r.segs, k, s0)[k := s1] == Inserted(r.segs, k, s1);
  }

  // Every record but a configuration record, which changes nothing, lands from the current segment on if that starts no
  // later, and from the first segment on if it does.
  lemma RecordLands(r: Req, p: Proc)
    requires Positioned(r)
    ensures p.Cfg? ==> Process(r, p) == r
    ensures !p.Cfg? ==> Lands(r.segs, if p.btime < r.segs[r.curr].startTime then 0 else r.curr, p, Process(r, p))
  {
    hide FindSeg, Lands, Process;
    if !p.Cfg? {
      match FindSeg(r.segs, StartPlace(r, p.btime), p.jid, p.btime) {
        case Same(k) => LandsInSegment(r, p, k);
        case Ahead(k) => LandsInNew(r, p, k);
        case Behind(k) => LandsInNew(r, p, k + 1);
      }
    } else {
      NothingProcessed(r, p);
    }
  }

  lemma NothingProcessed(r: Req, p: Proc)
    requires Positioned(r) && p.Cfg?
    ensures Process(r, p) == r
  {
  }

  // Both sections of records are searched from the first segment on.
  lemma SectionsStartOver(wms: seq<Wm>, jobRecs: seq<Proc>, p: Proc)
    requires wms != [] && !p.Cfg?
    ensures Lands(Gather(wms), 0, p, AfterJobRecs(wms, [p]))
    ensures Lands(AfterJobRecs(wms, jobRecs).segs, 0, p, DoWm(wms, jobRecs, [p]))
  {
    hide Lands, Process, Gather, ProcessAll;
    OneProcessed(Req(Gather(wms), 0), p);
    OneProcessed(AfterJobRecs(wms, jobRecs).(curr := 0), p);
    RecordLands(Req(Gather(wms), 0), p);
    RecordLands(AfterJobRecs(wms, jobRecs).(curr := 0), p);
  }

  lemma OneProcessed(r: Req, p: Proc)
    requires Positioned(r)
    ensures ProcessAll(r, [p]) == Process(r, p)
  {
    hide Process;
    var ps, none: seq<Proc> := [p], [];
    assert ps[..|ps| - 1] == none && ps[|ps| - 1] == p;
    assert ProcessAll(r, none) == r;
  }
}
