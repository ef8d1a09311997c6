// What csajrep makes of the records of a workload management request (csa/cmd/csajrep.c, do_wm, find_wm and wm_process), on
// values: the segments in order, the usage of each by user and project, and what adds up in the end.

module RequestSpec {
  import opened Basics

  // DEFAULT_PRID: the number of no project, for records that have none
  const DEFAULT_PRID: int := -2
  const NO_NEXT_JID: int := -99

  // A workload management record
  datatype Wm = Wm(jid: int, startTime: int, uid: int, prid: int, stime: nat)

  // A job or process record
  datatype Proc =
    | Csa(jid: int, uid: int, prid: int, btime: int, etime: int, stime: nat)
    | Soj(jid: int, uid: int, btime: int)
    | Eoj(jid: int, uid: int, btime: int, etime: int)
    | Cfg

  // What a reqent and a reqseg say
  datatype Use = Use(uid: int, prid: int, stime: nat)
  datatype Segment = Segment(jid: int, startTime: int, endTime: int, uses: seq<Use>)

  // A request and its current segment
  datatype Req = Req(segs: seq<Segment>, curr: nat)

  predicate Positioned(r: Req) {
    r.curr < |r.segs|
  }

  function PridOf(p: Proc): int {
    if p.Csa? then p.prid else DEFAULT_PRID
  }

  function StimeOf(p: Proc): nat {
    if p.Csa? then p.stime else 0
  }

  function EndOf(p: Proc): int
    requires !p.Cfg?
  {
    if p.Soj? then p.btime else p.etime
  }

  // ---- Workload management records ----

  // Behind all that start no later
  function PlaceFor(segs: seq<Segment>, n: nat, start: int): (p: nat)
    requires n <= |segs|
    ensures p <= n && (p > 0 ==> segs[p - 1].startTime <= start) && forall j :: p <= j < n ==> start < segs[j].startTime
  {
    if n == 0 || segs[n - 1].startTime <= start then n else PlaceFor(segs, n - 1, start)
  }

  function SegmentOf(wm: Wm): Segment {
    Segment(wm.jid, wm.startTime, wm.startTime, [Use(wm.uid, wm.prid, wm.stime)])
  }

  function WithSegment(segs: seq<Segment>, wm: Wm): (r: seq<Segment>)
    ensures |r| == |segs| + 1
  {
    Inserted(segs, PlaceFor(segs, |segs|, wm.startTime), SegmentOf(wm))
  }

  function Gather(wms: seq<Wm>): (segs: seq<Segment>)
    ensures |segs| == |wms|
  {
    if wms == [] then [] else WithSegment(Gather(wms[..|wms| - 1]), wms[|wms| - 1])
  }

  // ---- Job and process records ----

  // Where find_wm ends: at a segment of the job, or next to one
  datatype Hit = Same(k: nat) | Ahead(k: nat) | Behind(k: nat)

  function FindSeg(segs: seq<Segment>, k: nat, jid: int, btime: int): (h: Hit)
    requires k < |segs|
    ensures k <= h.k < |segs|
    decreases |segs| - k
  {
    var nextJid := if k + 1 < |segs| then segs[k + 1].jid else NO_NEXT_JID;
    if segs[k].jid == jid then Same(k)
    else if jid != nextJid && btime <= segs[k].startTime then Ahead(k)
    else if k + 1 == |segs| then Behind(k)
    else FindSeg(segs, k + 1, jid, btime)
  }

  function StartPlace(r: Req, btime: int): (k: nat)
    requires Positioned(r)
    ensures k < |r.segs|
  {
    if btime < r.segs[r.curr].startTime then 0 else r.curr
  }

  // The entry may take usage of this user and project.
  predicate Fits(u: Use, uid: int, prid: int) {
    u.uid == uid && (u.prid == DEFAULT_PRID || prid == DEFAULT_PRID || u.prid == prid)
  }

  // The first entry that fits, from a on; the end of the chain when none does
  function FirstFit(uses: seq<Use>, a: nat, uid: int, prid: int): (b: nat)
    requires a <= |uses|
    ensures a <= b <= |uses| && (b < |uses| ==> Fits(uses[b], uid, prid)) && forall i :: a <= i < b ==> !Fits(uses[i], uid, prid)
    decreases |uses| - a
  {
    if a == |uses| || Fits(uses[a], uid, prid) then a else FirstFit(uses, a + 1, uid, prid)
  }

  // That entry, with the project if it had none; or a new one
  function FindUse(uses: seq<Use>, uid: int, prid: int): (r: seq<Use>)
    ensures FirstFit(uses, 0, uid, prid) < |r|
  {
    var a := FirstFit(uses, 0, uid, prid);
    if a == |uses| then uses + [Use(uid, prid, 0)]
    else if uses[a].prid == DEFAULT_PRID then uses[a := uses[a].(prid := prid)]
    else uses
  }

  // find_wm
  function FindWm(r: Req, prid: int, jid: int, uid: int, btime: int, etime: int): (t: Req)
    requires Positioned(r)
    ensures Positioned(t) && UseAt(r, prid, jid, uid, btime) < |t.segs[t.curr].uses|
  {
    var new0 := Segment(jid, btime, etime, [Use(uid, prid, 0)]);
    match FindSeg(r.segs, StartPlace(r, btime), jid, btime)
    case Same(k) =>
      var s := r.segs[k];
      Req(r.segs[k := s.(startTime := if btime < s.startTime then btime else s.startTime, uses := FindUse(s.uses, uid, prid))], k)
    case Ahead(k) => Req(Inserted(r.segs, k, new0), k)
    case Behind(k) => Req(Inserted(r.segs, k + 1, new0), k + 1)
  }

  // The entry find_wm makes current, in its segment
  function UseAt(r: Req, prid: int, jid: int, uid: int, btime: int): nat
    requires Positioned(r)
  {
    match FindSeg(r.segs, StartPlace(r, btime), jid, btime)
    case Same(k) => FirstFit(r.segs[k].uses, 0, uid, prid)
    case _ => 0
  }

  // What wm_process adds to the current segment and entry
  function Counted(s: Segment, a: nat, p: Proc): Segment
    requires a < |s.uses| && !p.Cfg?
  {
    var end := if p.Eoj? || (p.Csa? && s.endTime < EndOf(p)) then EndOf(p) else s.endTime;
    s.(endTime := end, uses := s.uses[a := s.uses[a].(stime := s.uses[a].stime + StimeOf(p))])
  }

  // wm_process
  function Process(r: Req, p: Proc): (t: Req)
    requires Positioned(r)
    ensures Positioned(t)
  {
    if p.Cfg? then r
    else
      var t := FindWm(r, PridOf(p), p.jid, p.uid, p.btime, EndOf(p));
      t.(segs := t.segs[t.curr := Counted(t.segs[t.curr], UseAt(r, PridOf(p), p.jid, p.uid, p.btime), p)])
  }

  function ProcessAll(r: Req, ps: seq<Proc>): (t: Req)
    requires Positioned(r)
    ensures Positioned(t)
  {
    if ps == [] then r else Process(ProcessAll(r, ps[..|ps| - 1]), ps[|ps| - 1])
  }

  // do_wm up to its report: the records of the two sections are processed from the first segment on.
  function AfterJobRecs(wms: seq<Wm>, jobRecs: seq<Proc>): (r: Req)
    requires wms != []
    ensures Positioned(r)
  {
    ProcessAll(Req(Gather(wms), 0), jobRecs)
  }

  function DoWm(wms: seq<Wm>, jobRecs: seq<Proc>, procs: seq<Proc>): (r: Req)
    requires wms != []
    ensures Positioned(r)
  {
    ProcessAll(AfterJobRecs(wms, jobRecs).(curr := 0), procs)
  }

  // ---- Order of the segments ----

  // perm lists the records below n by start time, records of the same time in the order they were read.
  ghost predicate StableOrder(wms: seq<Wm>, perm: seq<nat>, n: nat) {
    && n <= |wms| && |perm| == n && (forall k :: 0 <= k < n ==> perm[k] < n)
    && forall j, k :: 0 <= j < k < n ==> Before(wms, perm[j], perm[k])
  }

  ghost predicate Before(wms: seq<Wm>, a: nat, b: nat) {
    && a < |wms| && b < |wms|
    && (wms[a].startTime < wms[b].startTime || (wms[a].startTime == wms[b].startTime && a < b))
  }

  lemma InsertStable(wms: seq<Wm>, perm: seq<nat>, i: nat, p: nat)
    requires StableOrder(wms, perm, i) && i < |wms| && p <= i
    requires forall j :: 0 <= j < p ==> wms[perm[j]].startTime <= wms[i].startTime
    requires forall j :: p <= j < i ==> wms[i].startTime < wms[perm[j]].startTime
    ensures StableOrder(wms, Inserted<nat>(perm, p, i), i + 1)
  {
    var all := Inserted(perm, p, i);
    forall a, b | 0 <= a < b < i + 1
      ensures Before(wms, all[a], all[b])
    {
      var x, y := if a < p then a else a - 1, if b < p then b else b - 1;
      if a != p && b != p {
        assert Before(wms, perm[x], perm[y]);
      }
    }
  }

  // The first phase is a stable sort by start time.
  lemma {:induction false} GatherIsStable(wms: seq<Wm>, n: nat) returns (perm: seq<nat>)
    requires n <= |wms|
    ensures StableOrder(wms, perm, n) && Permuted(wms, Gather(wms[..n]), perm)
    decreases n
  {
    hide Gather, StableOrder, Permuted, PlaceFor, Inserted;
    GatherNext(wms, n);
    if n > 0 {
      perm := GatherIsStable(wms, n - 1);
      var before := Gather(wms[..n - 1]);
      var p := PlaceFor(before, n - 1, wms[n - 1].startTime);
      StartsBefore(wms, before, perm, n - 1, p);
      InsertStable(wms, perm, n - 1, p);
      PermutedNext(wms, before, perm, n - 1, p);
      perm := Inserted<nat>(perm, p, n - 1);
    } else {
      perm := [];
      NothingPermuted(wms, Gather(wms[..n]));
    }
  }

  // The segment of a record before anything is added to it
  predicate IsOf(s: Segment, wm: Wm) {
    && s.jid == wm.jid && s.startTime == wm.startTime && s.endTime == wm.startTime
    && |s.uses| == 1 && s.uses[0].uid == wm.uid && s.uses[0].prid == wm.prid && s.uses[0].stime == wm.stime
  }

  // Segment k is that of record perm[k].
  ghost predicate Permuted(wms: seq<Wm>, segs: seq<Segment>, perm: seq<nat>) {
    |segs| == |perm| && forall k :: 0 <= k < |perm| ==> perm[k] < |wms| && IsOf(segs[k], wms[perm[k]])
  }

  lemma NothingPermuted(wms: seq<Wm>, segs: seq<Segment>)
    requires segs == []
    ensures StableOrder(wms, [], 0) && Permuted(wms, segs, [])
  {
  }

  lemma PermutedNext(wms: seq<Wm>, segs: seq<Segment>, perm: seq<nat>, n: nat, p: nat)
    requires Permuted(wms, segs, perm) && n < |wms| && p <= |segs|
    ensures Permuted(wms, Inserted(segs, p, SegmentOf(wms[n])), Inserted<nat>(perm, p, n))
  {
  }

  lemma GatherNext(wms: seq<Wm>, n: nat)
    requires n <= |wms|
    ensures |Gather(wms[..n])| == n
    ensures n > 0 ==> |Gather(wms[..n - 1])| == n - 1
                      && Gather(wms[..n]) == Inserted(Gather(wms[..n - 1]),
                                                     PlaceFor(Gather(wms[..n - 1]), n - 1, wms[n - 1].startTime), SegmentOf(wms[n - 1]))
  {
    hide Gather, PlaceFor;
    if n > 0 {
      assert wms[..n][..n - 1] == wms[..n - 1];
      GatherLast(wms[..n]);
    }
  }

  lemma GatherLast(wms: seq<Wm>)
    requires wms != []
    ensures Gather(wms) == WithSegment(Gather(wms[..|wms| - 1]), wms[|wms| - 1])
  {
    hide WithSegment;
  }

  // The place is behind all that start no later, and in front of the others.
  lemma StartsBefore(wms: seq<Wm>, segs: seq<Segment>, perm: seq<nat>, n: nat, p: nat)
    requires StableOrder(wms, perm, n) && n < |wms| && |segs| == n && Permuted(wms, segs, perm)
    requires p == PlaceFor(segs, n, wms[n].startTime)
    ensures p <= n && forall j :: 0 <= j < p ==> wms[perm[j]].startTime <= wms[n].startTime
    ensures forall j :: p <= j < n ==> wms[n].startTime < wms[perm[j]].startTime
  {
    forall j | 0 <= j < p
      ensures wms[perm[j]].startTime <= wms[n].startTime
    {
      if j < p - 1 {
        assert Before(wms, perm[j], perm[p - 1]);
      }
    }
  }

  // ---- One entry for a user and project ----

  // No two entries of a chain could take the same usage: a user has one entry without a project, or entries of different
  // projects.
  ghost predicate Apart(uses: seq<Use>) {
    forall i, j :: 0 <= i < j < |uses| ==> !Fits(uses[i], uses[j].uid, uses[j].prid)
  }

  ghost predicate ChainsApart(segs: seq<Segment>) {
    forall k :: 0 <= k < |segs| ==> segs[k].uses != [] && Apart(segs[k].uses)
  }

  lemma FindUseApart(uses: seq<Use>, uid: int, prid: int)
    requires Apart(uses)
    ensures Apart(FindUse(uses, uid, prid))
  {
    var a, r := FirstFit(uses, 0, uid, prid), FindUse(uses, uid, prid);
    forall i, j | 0 <= i < j < |r|
      ensures !Fits(r[i], r[j].uid, r[j].prid)
    {
      if j < |uses| {
        assert !Fits(uses[i], uses[j].uid, uses[j].prid);
      }
    }
  }

  lemma ProcessApart(r: Req, p: Proc)
    requires Positioned(r) && ChainsApart(r.segs)
    ensures ChainsApart(Process(r, p).segs)
  {
    hide FindWm, UseAt, Apart, Counted, ChainsApart;
    if !p.Cfg? {
      var t, a := FindWm(r, PridOf(p), p.jid, p.uid, p.btime, EndOf(p)), UseAt(r, PridOf(p), p.jid, p.uid, p.btime);
      FindWmApart(r, PridOf(p), p.jid, p.uid, p.btime, EndOf(p));
      ApartAt(t.segs, t.curr);
      CountedApart(t.segs[t.curr], a, p);
      ApartPut(t.segs, t.curr, Counted(t.segs[t.curr], a, p));
    }
  }

  lemma ApartAt(segs: seq<Segment>, k: nat)
    requires ChainsApart(segs) && k < |segs|
    ensures segs[k].uses != [] && Apart(segs[k].uses)
  {
  }

  lemma ApartPut(segs: seq<Segment>, k: nat, s: Segment)
    requires ChainsApart(segs) && k < |segs| && s.uses != [] && Apart(s.uses)
    ensures ChainsApart(segs[k := s])
  {
    hide Apart;
  }

  lemma ApartInserted(segs: seq<Segment>, k: nat, s: Segment)
    requires ChainsApart(segs) && k <= |segs| && s.uses != [] && Apart(s.uses)
    ensures ChainsApart(Inserted(segs, k, s))
  {
    hide Apart;
  }

  lemma FindWmApart(r: Req, prid: int, jid: int, uid: int, btime: int, etime: int)
    requires Positioned(r) && ChainsApart(r.segs)
    ensures ChainsApart(FindWm(r, prid, jid, uid, btime, etime).segs)
  {
    hide FindSeg, StartPlace, FirstFit, FindUse, Apart, ChainsApart, Inserted;
    var new0 := Segment(jid, btime, etime, [Use(uid, prid, 0)]);
    OneApart(Use(uid, prid, 0));
    match FindSeg(r.segs, StartPlace(r, btime), jid, btime)
    case Same(k) =>
      var s := r.segs[k];
      ApartAt(r.segs, k);
      FindUseApart(s.uses, uid, prid);
      ApartPut(r.segs, k, s.(startTime := if btime < s.startTime then btime else s.startTime, uses := FindUse(s.uses, uid, prid)));
    case Ahead(k) => ApartInserted(r.segs, k, new0);
    case Behind(k) => ApartInserted(r.segs, k + 1, new0);
  }

  lemma OneApart(u: Use)
    ensures Apart([u])
  {
  }

  lemma CountedApart(s: Segment, a: nat, p: Proc)
    requires a < |s.uses| && !p.Cfg? && Apart(s.uses)
    ensures Counted(s, a, p).uses != [] && Apart(Counted(s, a, p).uses)
  {
    var uses := Counted(s, a, p).uses;
    forall i, j | 0 <= i < j < |uses|
      ensures !Fits(uses[i], uses[j].uid, uses[j].prid)
    {
      assert !Fits(s.uses[i], s.uses[j].uid, s.uses[j].prid);
    }
  }

  lemma {:induction false} ProcessAllApart(r: Req, ps: seq<Proc>)
    requires Positioned(r) && ChainsApart(r.segs)
    ensures ChainsApart(ProcessAll(r, ps).segs)
    decreases |ps|
  {
    hide Process, ChainsApart;
    if ps != [] {
      ProcessAllApart(r, ps[..|ps| - 1]);
      ProcessApart(ProcessAll(r, ps[..|ps| - 1]), ps[|ps| - 1]);
    }
  }

  lemma {:induction false} GatherApart(wms: seq<Wm>)
    ensures ChainsApart(Gather(wms))
    decreases |wms|
  {
    if wms != [] {
      GatherApart(wms[..|wms| - 1]);
    }
  }

  // In the chain of every segment, after any records.
  lemma RequestApart(wms: seq<Wm>, jobRecs: seq<Proc>, procs: seq<Proc>)
    requires wms != []
    ensures ChainsApart(DoWm(wms, jobRecs, procs).segs)
  {
    hide ChainsApart;
    GatherApart(wms);
    ProcessAllApart(Req(Gather(wms), 0), jobRecs);
    ProcessAllApart(AfterJobRecs(wms, jobRecs).(curr := 0), procs);
  }

  // ---- Totals ----

  // What an entry says, with its job
  datatype Row = Row(jid: int, uid: int, prid: int, stime: nat)

  // What is added up: everything, what a user has in a job, or what a user has there for a project
  datatype Key = All | User(jid: int, uid: int) | Project(jid: int, uid: int, prid: int)

  predicate Match(key: Key, jid: int, uid: int, prid: int) {
    match key
    case All => true
    case User(j, u) => j == jid && u == uid
    case Project(j, u, p) => j == jid && u == uid && p == prid
  }

  function Share(row: Row, key: Key): nat {
    if Match(key, row.jid, row.uid, row.prid) then row.stime else 0
  }

  function Total(rows: seq<Row>, key: Key): nat {
    if rows == [] then 0 else Total(rows[..|rows| - 1], key) + Share(rows[|rows| - 1], key)
  }

  lemma TotalPush(rows: seq<Row>, row: Row, key: Key)
    ensures Total(rows + [row], key) == Total(rows, key) + Share(row, key)
  {
    assert (rows + [row])[..|rows|] == rows;
  }

  lemma {:induction false} TotalConcat(a: seq<Row>, b: seq<Row>, key: Key)
    ensures Total(a + b, key) == Total(a, key) + Total(b, key)
    decreases |b|
  {
    hide Share;
    if b == [] {
      assert a + b == a;
    } else {
      var n := |b| - 1;
      TotalConcat(a, b[..n], key);
      assert a + b == (a + b[..n]) + [b[n]];
      TotalPush(a + b[..n], b[n], key);
    }
  }

  lemma {:induction false} TotalUpdate(rows: seq<Row>, k: nat, row: Row, key: Key)
    requires k < |rows|
    ensures Total(rows[k := row], key) + Share(rows[k], key) == Total(rows, key) + Share(row, key)
    decreases |rows|
  {
    hide Share;
    var n := |rows| - 1;
    if k < n {
      TotalUpdate(rows[..n], k, row, key);
      assert rows[k := row][..n] == rows[..n][k := row];
    } else {
      assert rows[k := row][..n] == rows[..n];
    }
  }

  function UseRows(jid: int, uses: seq<Use>): (rows: seq<Row>)
    ensures |rows| == |uses| && forall a :: 0 <= a < |uses| ==> rows[a] == Row(jid, uses[a].uid, uses[a].prid, uses[a].stime)
  {
    seq(|uses|, a requires 0 <= a < |uses| => Row(jid, uses[a].uid, uses[a].prid, uses[a].stime))
  }

  // What the report meets, segment by segment
  function SegRows(segs: seq<Segment>): seq<Row> {
    if segs == [] then []
    else SegRows(segs[..|segs| - 1]) + UseRows(segs[|segs| - 1].jid, segs[|segs| - 1].uses)
  }

  function Sum(segs: seq<Segment>, key: Key): nat {
    Total(SegRows(segs), key)
  }

  function SumOf(s: Segment, key: Key): nat {
    Total(UseRows(s.jid, s.uses), key)
  }

  lemma SumPush(segs: seq<Segment>, s: Segment, key: Key)
    ensures Sum(segs + [s], key) == Sum(segs, key) + SumOf(s, key)
  {
    assert (segs + [s])[..|segs|] == segs;
    TotalConcat(SegRows(segs), UseRows(s.jid, s.uses), key);
  }

  lemma SumLast(segs: seq<Segment>, key: Key)
    requires segs != []
    ensures Sum(segs, key) == Sum(segs[..|segs| - 1], key) + SumOf(segs[|segs| - 1], key)
  {
    SumPush(segs[..|segs| - 1], segs[|segs| - 1], key);
    assert segs[..|segs| - 1] + [segs[|segs| - 1]] == segs;
  }

  lemma {:induction false} SumInserted(segs: seq<Segment>, k: nat, s: Segment, key: Key)
    requires k <= |segs|
    ensures Sum(Inserted(segs, k, s), key) == Sum(segs, key) + SumOf(s, key)
    decreases |segs|
  {
    hide Sum, SumOf;
    var all := Inserted(segs, k, s);
    SumLast(all, key);
    if k == |segs| {
      assert all[..|segs|] == segs;
    } else {
      var n := |segs| - 1;
      SumInserted(segs[..n], k, s, key);
      assert all[..|segs|] == Inserted(segs[..n], k, s);
      SumLast(segs, key);
    }
  }

  lemma {:induction false} SumUpdate(segs: seq<Segment>, k: nat, s: Segment, key: Key)
    requires k < |segs|
    ensures Sum(segs[k := s], key) + SumOf(segs[k], key) == Sum(segs, key) + SumOf(s, key)
    decreases |segs|
  {
    hide Sum, SumOf;
    var n := |segs| - 1;
    SumLast(segs, key);
    SumLast(segs[k := s], key);
    if k < n {
      SumUpdate(segs[..n], k, s, key);
      assert segs[k := s][..n] == segs[..n][k := s];
    } else {
      assert segs[k := s][..n] == segs[..n];
    }
  }

  // ---- What the records themselves add up to ----

  function WmShare(wm: Wm, key: Key): nat {
    if Match(key, wm.jid, wm.uid, wm.prid) then wm.stime else 0
  }

  function ProcShare(p: Proc, key: Key): nat {
    if p.Csa? && Match(key, p.jid, p.uid, p.prid) then p.stime else 0
  }

  function SumWms(wms: seq<Wm>, key: Key): nat {
    if wms == [] then 0 else SumWms(wms[..|wms| - 1], key) + WmShare(wms[|wms| - 1], key)
  }

  function SumProcs(ps: seq<Proc>, key: Key): nat {
    if ps == [] then 0 else SumProcs(ps[..|ps| - 1], key) + ProcShare(ps[|ps| - 1], key)
  }

  lemma {:induction false} GatherSum(wms: seq<Wm>, key: Key)
    ensures Sum(Gather(wms), key) == SumWms(wms, key)
    decreases |wms|
  {
    hide Sum, Inserted, PlaceFor;
    if wms == [] {
      NothingSummed(key);
    } else {
      var before, wm := Gather(wms[..|wms| - 1]), wms[|wms| - 1];
      GatherSum(wms[..|wms| - 1], key);
      SumInserted(before, PlaceFor(before, |before|, wm.startTime), SegmentOf(wm), key);
      SumOfOne(SegmentOf(wm), key);
    }
  }

  lemma NothingSummed(key: Key)
    ensures Sum([], key) == 0
  {
  }

  lemma SumOfOne(s: Segment, key: Key)
    requires |s.uses| == 1
    ensures SumOf(s, key) == Share(Row(s.jid, s.uses[0].uid, s.uses[0].prid, s.uses[0].stime), key)
  {
    var rows := UseRows(s.jid, s.uses);
    assert rows[..0] == [] && rows == [] + [rows[0]];
    TotalPush([], rows[0], key);
  }

  // ---- Projects ----

  // The entry that is there already for the record, if there is one
  function Meets(r: Req, p: Proc): Option<Use>
    requires Positioned(r)
  {
    if p.Cfg? then None
    else
      match FindSeg(r.segs, StartPlace(r, p.btime), p.jid, p.btime)
      case Same(k) =>
        var a := FirstFit(r.segs[k].uses, 0, p.uid, PridOf(p));
        if a < |r.segs[k].uses| then Some(r.segs[k].uses[a]) else None
      case _ => None
  }

  // How much stime of no project the record moves to a project: what an entry without one held when it gets one, or what
  // a record without one brings to an entry that has one
  function Moved(r: Req, p: Proc): nat
    requires Positioned(r)
  {
    match Meets(r, p)
    case None => 0
    case Some(u) =>
      if u.prid == DEFAULT_PRID && PridOf(p) != DEFAULT_PRID then u.stime
      else if u.prid != DEFAULT_PRID && PridOf(p) == DEFAULT_PRID then StimeOf(p)
      else 0
  }

  // ...and to which one
  function MovedTo(r: Req, p: Proc): int
    requires Positioned(r)
  {
    match Meets(r, p)
    case None => DEFAULT_PRID
    case Some(u) => if u.prid == DEFAULT_PRID then PridOf(p) else u.prid
  }

  function Shift(r: Req, p: Proc, key: Key): int
    requires Positioned(r)
  {
    if p.Cfg? || !key.Project? || key.jid != p.jid || key.uid != p.uid then 0
    else (if key.prid == MovedTo(r, p) then Moved(r, p) else 0) - if key.prid == DEFAULT_PRID then Moved(r, p) else 0
  }

  // The usage of one entry, before and after
  lemma UsesTotal(s: Segment, p: Proc, key: Key)
    requires !p.Cfg? && s.jid == p.jid
    ensures var a, uses := FirstFit(s.uses, 0, p.uid, PridOf(p)), FindUse(s.uses, p.uid, PridOf(p));
            var c := Counted(s.(uses := uses), a, p);
            var u := if a < |s.uses| then s.uses[a] else Use(p.uid, PridOf(p), 0);
            SumOf(c, key) + Share(Row(p.jid, u.uid, u.prid, u.stime), key)
            == SumOf(s, key) + Share(Row(p.jid, u.uid, if u.prid == DEFAULT_PRID then PridOf(p) else u.prid, u.stime + StimeOf(p)), key)
  {
    hide Share, Total;
    var a, uses := FirstFit(s.uses, 0, p.uid, PridOf(p)), FindUse(s.uses, p.uid, PridOf(p));
    var c := Counted(s.(uses := uses), a, p);
    var rows := UseRows(s.jid, s.uses);
    var prid := if uses[a].prid == DEFAULT_PRID then PridOf(p) else uses[a].prid;
    var row := Row(p.jid, p.uid, uses[a].prid, uses[a].stime + StimeOf(p));
    if a < |s.uses| {
      assert UseRows(c.jid, c.uses) == rows[a := row];
      TotalUpdate(rows, a, row, key);
    } else {
      assert UseRows(c.jid, c.uses) == rows + [row];
      TotalPush(rows, row, key);
      NoShare(p.jid, p.uid, PridOf(p), key);
    }
  }

  lemma NoShare(jid: int, uid: int, prid: int, key: Key)
    ensures Share(Row(jid, uid, prid, 0), key) == 0
  {
  }

  // The law of one record: every total grows by the record's share, but what is moved leaves the total of no project and
  // enters that of a project, of the same user in the same job.
  lemma ProcessTotal(r: Req, p: Proc, key: Key)
    requires Positioned(r)
    ensures Sum(Process(r, p).segs, key) == Sum(r.segs, key) + ProcShare(p, key) + Shift(r, p, key)
  {
    hide Sum, SumOf, FindSeg, FirstFit, FindUse, StartPlace, Inserted;
    if !p.Cfg? {
      match FindSeg(r.segs, StartPlace(r, p.btime), p.jid, p.btime) {
        case Same(k) => SameTotal(r, p, key);
        case Ahead(k) => NewTotal(r, p, k, key);
        case Behind(k) => NewTotal(r, p, k + 1, key);
      }
    }
  }

  // Segment j is passed by: it starts earlier, or the next one is of the job.
  predicate PassedBy(segs: seq<Segment>, j: nat, jid: int, btime: int)
    requires j < |segs|
  {
    segs[j].startTime < btime || jid == if j + 1 < |segs| then segs[j + 1].jid else NO_NEXT_JID
  }

  // Where the search ends: at the first segment of the job; when one that is not passed by comes first, ahead of that; or
  // behind the last one.
  lemma {:induction false} SearchEnds(segs: seq<Segment>, k: nat, jid: int, btime: int)
    requires k < |segs|
    ensures var h := FindSeg(segs, k, jid, btime);
            && (forall j :: k <= j < h.k ==> segs[j].jid != jid && PassedBy(segs, j, jid, btime))
            && (h.Same? <==> segs[h.k].jid == jid)
            && (h.Ahead? ==> !PassedBy(segs, h.k, jid, btime))
            && (h.Behind? ==> h.k == |segs| - 1 && PassedBy(segs, h.k, jid, btime))
    decreases |segs| - k
  {
    var nextJid := if k + 1 < |segs| then segs[k + 1].jid else NO_NEXT_JID;
    if segs[k].jid != jid && (jid == nextJid || segs[k].startTime < btime) && k + 1 < |segs| {
      SearchEnds(segs, k + 1, jid, btime);
    }
  }

  lemma SameTotal(r: Req, p: Proc, key: Key)
    requires Positioned(r) && !p.Cfg? && FindSeg(r.segs, StartPlace(r, p.btime), p.jid, p.btime).Same?
    ensures Sum(Process(r, p).segs, key) == Sum(r.segs, key) + ProcShare(p, key) + Shift(r, p, key)
  {
    hide Sum, FindSeg, FirstFit, FindUse, StartPlace, Total, UseRows;
    var k := FindSeg(r.segs, StartPlace(r, p.btime), p.jid, p.btime).k;
    SearchEnds(r.segs, StartPlace(r, p.btime), p.jid, p.btime);
    var s, t := r.segs[k], Process(r, p).segs;
    var a, uses := FirstFit(s.uses, 0, p.uid, PridOf(p)), FindUse(s.uses, p.uid, PridOf(p));
    UsesTotal(s, p, key);
    SumUpdate(r.segs, k, t[k], key);
    assert t == r.segs[k := t[k]];
    var c := Counted(s.(uses := uses), a, p);
    assert t[k].jid == c.jid && t[k].uses == c.uses;
    assert SumOf(t[k], key) == SumOf(c, key);
  }

  lemma NewTotal(r: Req, p: Proc, k: nat, key: Key)
    requires Positioned(r) && !p.Cfg?
    requires var h := FindSeg(r.segs, StartPlace(r, p.btime), p.jid, p.btime);
             (h.Ahead? && k == h.k) || (h.Behind? && k == h.k + 1)
    ensures Sum(Process(r, p).segs, key) == Sum(r.segs, key) + ProcShare(p, key) + Shift(r, p, key)
  {
    hide Sum, SumOf;
    var t := Process(r, p).segs;
    var new0 := Segment(p.jid, p.btime, EndOf(p), [Use(p.uid, PridOf(p), 0)]);
    assert t == Inserted(r.segs, k, new0)[k := t[k]];
    SumInserted(r.segs, k, new0, key);
    SumUpdate(Inserted(r.segs, k, new0), k, t[k], key);
    SumOfOne(new0, key);
    SumOfOne(t[k], key);
  }

  // For every record: all totals, those of projects too, grow by the record's share exactly when nothing is moved, that
  // is, no entry with stime gets a project and no process without one is counted under one.
  lemma RecordIsRightIff(r: Req, p: Proc)
    requires Positioned(r)
    ensures (forall key :: Sum(Process(r, p).segs, key) == Sum(r.segs, key) + ProcShare(p, key)) <==> Moved(r, p) == 0
  {
    hide Sum, Process, ProcShare, Meets;
    forall key: Key
      ensures Sum(Process(r, p).segs, key) == Sum(r.segs, key) + ProcShare(p, key) + Shift(r, p, key)
    {
      ProcessTotal(r, p, key);
    }
    if Moved(r, p) != 0 {
      MovedSomewhere(r, p);
      var key := Project(p.jid, p.uid, DEFAULT_PRID);
      assert Shift(r, p, key) == -(Moved(r, p) as int);
    }
  }

  lemma MovedSomewhere(r: Req, p: Proc)
    requires Positioned(r) && Moved(r, p) != 0
    ensures !p.Cfg? && MovedTo(r, p) != DEFAULT_PRID
  {
    hide FindSeg, FirstFit, StartPlace;
  }

  // What the records of a user in a job moved from no project
  function Drift(r: Req, ps: seq<Proc>, jid: int, uid: int): nat
    requires Positioned(r)
  {
    if ps == [] then 0
    else
      var before, p := ps[..|ps| - 1], ps[|ps| - 1];
      Drift(r, before, jid, uid) + if !p.Cfg? && p.jid == jid && p.uid == uid then Moved(ProcessAll(r, before), p) else 0
  }

  // Over any records: what users have in jobs, and in all, is always right; of what they have there for projects, no
  // project has less than its records say, and exactly the drift is missing from no project.
  lemma {:induction false} ProcessAllTotal(r: Req, ps: seq<Proc>, key: Key)
    requires Positioned(r)
    ensures !key.Project? ==> Sum(ProcessAll(r, ps).segs, key) == Sum(r.segs, key) + SumProcs(ps, key)
    ensures key.Project? && key.prid != DEFAULT_PRID ==>
              Sum(r.segs, key) + SumProcs(ps, key) <= Sum(ProcessAll(r, ps).segs, key)
              <= Sum(r.segs, key) + SumProcs(ps, key) + Drift(r, ps, key.jid, key.uid)
    ensures key.Project? && key.prid == DEFAULT_PRID ==>
              Sum(ProcessAll(r, ps).segs, key) + Drift(r, ps, key.jid, key.uid) == Sum(r.segs, key) + SumProcs(ps, key)
    decreases |ps|
  {
    hide Sum, Process, ProcShare, Moved, MovedTo;
    if ps != [] {
      var before, p := ps[..|ps| - 1], ps[|ps| - 1];
      ProcessAllTotal(r, before, key);
      var s := ProcessAll(r, before);
      ProcessTotal(s, p, key);
      if Moved(s, p) != 0 {
        MovedSomewhere(s, p);
      }
    }
  }

  // What a user's records in a job moved over the whole request
  function RequestDrift(wms: seq<Wm>, jobRecs: seq<Proc>, procs: seq<Proc>, jid: int, uid: int): nat
    requires wms != []
  {
    Drift(Req(Gather(wms), 0), jobRecs, jid, uid) + Drift(AfterJobRecs(wms, jobRecs).(curr := 0), procs, jid, uid)
  }

  function RecordSum(wms: seq<Wm>, jobRecs: seq<Proc>, procs: seq<Proc>, key: Key): nat {
    SumWms(wms, key) + SumProcs(jobRecs, key) + SumProcs(procs, key)
  }

  // A whole request: every user's usage in every job is what the records say.
  lemma UsersAreRight(wms: seq<Wm>, jobRecs: seq<Proc>, procs: seq<Proc>, key: Key)
    requires wms != [] && !key.Project?
    ensures Sum(DoWm(wms, jobRecs, procs).segs, key) == RecordSum(wms, jobRecs, procs, key)
  {
    hide Sum, ProcessAll, Gather;
    GatherSum(wms, key);
    ProcessAllTotal(Req(Gather(wms), 0), jobRecs, key);
    ProcessAllTotal(AfterJobRecs(wms, jobRecs).(curr := 0), procs, key);
  }

  // For every user and job: projects never have too little, no project has too little by what was moved, and all of them
  // are right exactly when nothing was.
  lemma ProjectsAreRightIff(wms: seq<Wm>, jobRecs: seq<Proc>, procs: seq<Proc>, jid: int, uid: int)
    requires wms != []
    ensures var segs, none := DoWm(wms, jobRecs, procs).segs, Project(jid, uid, DEFAULT_PRID);
            && (forall prid :: prid != DEFAULT_PRID ==>
                  RecordSum(wms, jobRecs, procs, Project(jid, uid, prid)) <= Sum(segs, Project(jid, uid, prid)))
            && Sum(segs, none) + RequestDrift(wms, jobRecs, procs, jid, uid) == RecordSum(wms, jobRecs, procs, none)
            && ((forall prid :: Sum(segs, Project(jid, uid, prid)) == RecordSum(wms, jobRecs, procs, Project(jid, uid, prid)))
                <==> RequestDrift(wms, jobRecs, procs, jid, uid) == 0)
  {
    hide Sum, ProcessAll, Gather, Drift;
    forall prid: int
      ensures var key := Project(jid, uid, prid);
              var sum, said, drift := Sum(DoWm(wms, jobRecs, procs).segs, key), RecordSum(wms, jobRecs, procs, key),
                                      RequestDrift(wms, jobRecs, procs, jid, uid);
              if prid == DEFAULT_PRID then sum + drift == said else said <= sum <= said + drift
    {
      var key := Project(jid, uid, prid);
      GatherSum(wms, key);
      ProcessAllTotal(Req(Gather(wms), 0), jobRecs, key);
      ProcessAllTotal(AfterJobRecs(wms, jobRecs).(curr := 0), procs, key);
    }
  }

  // Nothing is moved exactly when no record of the user in the job moves anything where it comes.
  lemma {:induction false} DriftIsZeroIff(r: Req, ps: seq<Proc>, jid: int, uid: int)
    requires Positioned(r)
    ensures Drift(r, ps, jid, uid) == 0 <==>
              forall i :: 0 <= i < |ps| && !ps[i].Cfg? && ps[i].jid == jid && ps[i].uid == uid ==>
                Moved(ProcessAll(r, ps[..i]), ps[i]) == 0
    decreases |ps|
  {
    hide Moved, ProcessAll;
    if ps != [] {
      var n := |ps| - 1;
      DriftIsZeroIff(r, ps[..n], jid, uid);
      assert forall i :: 0 <= i < n ==> ps[..n][i] == ps[i] && ps[..n][..i] == ps[..i];
    }
  }

  // ---- Users whose records name their projects ----

  // Usage of this user in this job is under a project, or there is none.
  predicate Named(jid: int, uid: int, recJid: int, recUid: int, prid: int, stime: nat) {
    recJid == jid && recUid == uid && prid == DEFAULT_PRID ==> stime == 0
  }

  ghost predicate SegNamed(s: Segment, jid: int, uid: int) {
    forall a :: 0 <= a < |s.uses| ==> Named(jid, uid, s.jid, s.uses[a].uid, s.uses[a].prid, s.uses[a].stime)
  }

  ghost predicate NamedSegs(segs: seq<Segment>, jid: int, uid: int) {
    forall k :: 0 <= k < |segs| ==> SegNamed(segs[k], jid, uid)
  }

  predicate NamedProc(p: Proc, jid: int, uid: int) {
    p.Csa? ==> Named(jid, uid, p.jid, p.uid, p.prid, p.stime)
  }

  lemma NamedStays(r: Req, p: Proc, jid: int, uid: int)
    requires Positioned(r) && NamedSegs(r.segs, jid, uid) && NamedProc(p, jid, uid)
    ensures NamedSegs(Process(r, p).segs, jid, uid)
    ensures !p.Cfg? && p.jid == jid && p.uid == uid ==> Moved(r, p) == 0
  {
    hide FindSeg, StartPlace, FirstFit, FindUse, Counted, SegNamed, Fits, NamedProc;
    if !p.Cfg? {
      SearchEnds(r.segs, StartPlace(r, p.btime), p.jid, p.btime);
      var h := FindSeg(r.segs, StartPlace(r, p.btime), p.jid, p.btime);
      var t, a := FindWm(r, PridOf(p), p.jid, p.uid, p.btime, EndOf(p)), UseAt(r, PridOf(p), p.jid, p.uid, p.btime);
      if h.Same? {
        var s := r.segs[h.k];
        assert SegNamed(s, jid, uid);
        NamedUse(s, t.segs[t.curr], p, jid, uid);
        NamedPut(r.segs, h.k, Process(r, p).segs[h.k], jid, uid);
        assert Process(r, p).segs == r.segs[h.k := Process(r, p).segs[h.k]];
        if p.jid == jid && p.uid == uid {
          NothingMoved(s, p, jid, uid);
        }
      } else {
        var k := t.curr;
        NamedNew(t.segs[k], a, p, jid, uid);
        NamedIn(r.segs, k, t.segs[k], jid, uid);
        NamedPut(t.segs, k, Process(r, p).segs[k], jid, uid);
      }
    }
  }

  lemma NamedUse(s: Segment, found: Segment, p: Proc, jid: int, uid: int)
    requires !p.Cfg? && s.jid == found.jid == p.jid && found.uses == FindUse(s.uses, p.uid, PridOf(p))
    requires SegNamed(s, jid, uid) && NamedProc(p, jid, uid)
    ensures SegNamed(Counted(found, FirstFit(s.uses, 0, p.uid, PridOf(p)), p), jid, uid)
  {
    var a := FirstFit(s.uses, 0, p.uid, PridOf(p));
    var c := Counted(found, a, p);
    forall i | 0 <= i < |c.uses|
      ensures Named(jid, uid, c.jid, c.uses[i].uid, c.uses[i].prid, c.uses[i].stime)
    {
      if i < |s.uses| {
        assert Named(jid, uid, s.jid, s.uses[i].uid, s.uses[i].prid, s.uses[i].stime);
      }
    }
  }

  lemma NamedNew(s: Segment, a: nat, p: Proc, jid: int, uid: int)
    requires !p.Cfg? && a == 0 && s.jid == p.jid && s.uses == [Use(p.uid, PridOf(p), 0)] && NamedProc(p, jid, uid)
    ensures SegNamed(s, jid, uid) && SegNamed(Counted(s, a, p), jid, uid)
  {
  }

  lemma NamedPut(segs: seq<Segment>, k: nat, s: Segment, jid: int, uid: int)
    requires k < |segs| && NamedSegs(segs, jid, uid) && SegNamed(s, jid, uid)
    ensures NamedSegs(segs[k := s], jid, uid)
  {
    hide SegNamed;
  }

  lemma NamedIn(segs: seq<Segment>, k: nat, s: Segment, jid: int, uid: int)
    requires k <= |segs| && NamedSegs(segs, jid, uid) && SegNamed(s, jid, uid)
    ensures NamedSegs(Inserted(segs, k, s), jid, uid)
  {
    hide SegNamed;
  }

  lemma NothingMoved(s: Segment, p: Proc, jid: int, uid: int)
    requires !p.Cfg? && s.jid == p.jid == jid && p.uid == uid && SegNamed(s, jid, uid) && NamedProc(p, jid, uid)
    ensures var a := FirstFit(s.uses, 0, uid, PridOf(p));
            && (a < |s.uses| && s.uses[a].prid == DEFAULT_PRID ==> s.uses[a].stime == 0)
            && (PridOf(p) == DEFAULT_PRID ==> StimeOf(p) == 0)
  {
    var a := FirstFit(s.uses, 0, uid, PridOf(p));
    if a < |s.uses| {
      assert Named(jid, uid, s.jid, s.uses[a].uid, s.uses[a].prid, s.uses[a].stime);
    }
  }

  lemma {:induction false} NamedAll(r: Req, ps: seq<Proc>, jid: int, uid: int)
    requires Positioned(r) && NamedSegs(r.segs, jid, uid) && forall p :: p in ps ==> NamedProc(p, jid, uid)
    ensures NamedSegs(ProcessAll(r, ps).segs, jid, uid) && Drift(r, ps, jid, uid) == 0
    decreases |ps|
  {
    hide Process, NamedSegs, NamedProc, Moved;
    if ps != [] {
      var n := |ps| - 1;
      assert ps[n] in ps && forall p :: p in ps[..n] ==> p in ps;
      NamedAll(r, ps[..n], jid, uid);
      NamedStays(ProcessAll(r, ps[..n]), ps[n], jid, uid);
    }
  }

  lemma {:induction false} GatherNamed(wms: seq<Wm>, jid: int, uid: int)
    requires forall wm :: wm in wms ==> Named(jid, uid, wm.jid, wm.uid, wm.prid, wm.stime)
    ensures NamedSegs(Gather(wms), jid, uid)
    decreases |wms|
  {
    hide Named, NamedSegs, Gather, PlaceFor;
    if wms != [] {
      var n := |wms| - 1;
      assert wms[n] in wms && forall wm :: wm in wms[..n] ==> wm in wms;
      GatherNamed(wms[..n], jid, uid);
      var before := Gather(wms[..n]);
      GatherLast(wms);
      NamedInserted(before, PlaceFor(before, |before|, wms[n].startTime), wms[n], jid, uid);
    } else {
      NothingNamed(wms, jid, uid);
    }
  }

  lemma NamedInserted(segs: seq<Segment>, k: nat, wm: Wm, jid: int, uid: int)
    requires k <= |segs| && NamedSegs(segs, jid, uid) && Named(jid, uid, wm.jid, wm.uid, wm.prid, wm.stime)
    ensures NamedSegs(Inserted(segs, k, SegmentOf(wm)), jid, uid)
  {
    hide SegNamed;
    NamedOne(wm, jid, uid);
    NamedIn(segs, k, SegmentOf(wm), jid, uid);
  }

  lemma NothingNamed(wms: seq<Wm>, jid: int, uid: int)
    requires wms == []
    ensures NamedSegs(Gather(wms), jid, uid)
  {
  }

  lemma NamedOne(wm: Wm, jid: int, uid: int)
    requires Named(jid, uid, wm.jid, wm.uid, wm.prid, wm.stime)
    ensures SegNamed(SegmentOf(wm), jid, uid)
  {
  }

  // A user all of whose records with stime in a job name a project has all projects right there.
  lemma NamedProjectsAreRight(wms: seq<Wm>, jobRecs: seq<Proc>, procs: seq<Proc>, jid: int, uid: int, prid: int)
    requires wms != [] && forall wm :: wm in wms ==> Named(jid, uid, wm.jid, wm.uid, wm.prid, wm.stime)
    requires forall p :: p in jobRecs || p in procs ==> NamedProc(p, jid, uid)
    ensures Sum(DoWm(wms, jobRecs, procs).segs, Project(jid, uid, prid))
            == RecordSum(wms, jobRecs, procs, Project(jid, uid, prid))
  {
    hide Sum, NamedSegs, Named, NamedProc, ProcessAll, Gather, Drift;
    GatherNamed(wms, jid, uid);
    NamedAll(Req(Gather(wms), 0), jobRecs, jid, uid);
    NamedAll(AfterJobRecs(wms, jobRecs).(curr := 0), procs, jid, uid);
    ProjectsAreRightIff(wms, jobRecs, procs, jid, uid);
  }

  // ---- Requests whose projects are wrong ----

  // One workload management record and one process of the same user and job, at the same time
  lemma LoneRequest(wm: Wm, p: Proc, u: Use)
    requires p.Csa? && p.jid == wm.jid && p.uid == wm.uid && p.btime == p.etime == wm.startTime
    requires Fits(Use(wm.uid, wm.prid, wm.stime), p.uid, p.prid)
    requires u == Use(wm.uid, if wm.prid == DEFAULT_PRID then p.prid else wm.prid, wm.stime + p.stime)
    ensures DoWm([wm], [], [p]).segs == [Segment(wm.jid, wm.startTime, wm.startTime, [u])]
    ensures forall key :: Sum(DoWm([wm], [], [p]).segs, key) == Share(Row(wm.jid, u.uid, u.prid, u.stime), key)
    ensures forall key :: RecordSum([wm], [], [p], key) == WmShare(wm, key) + ProcShare(p, key)
  {
    var s := Segment(wm.jid, wm.startTime, wm.startTime, [u]);
    OneProcess(wm, p, u);
    assert [wm][..0] == [] && [p][..0] == [];
    assert Gather([wm]) == [SegmentOf(wm)];
    assert DoWm([wm], [], [p]) == Process(Req([SegmentOf(wm)], 0), p);
    forall key: Key
      ensures Sum([s], key) == Share(Row(wm.jid, u.uid, u.prid, u.stime), key)
    {
      SumLast([s], key);
      assert [s][..0] == [];
      NothingSummed(key);
      SumOfOne(s, key);
    }
    forall key: Key
      ensures RecordSum([wm], [], [p], key) == WmShare(wm, key) + ProcShare(p, key)
    {
      OneRecordEach(wm, p, key);
    }
  }

  lemma OneRecordEach(wm: Wm, p: Proc, key: Key)
    ensures RecordSum([wm], [], [p], key) == WmShare(wm, key) + ProcShare(p, key)
  {
    assert [wm][..0] == [] && [p][..0] == [];
    assert SumWms([wm], key) == WmShare(wm, key) && SumProcs([p], key) == ProcShare(p, key);
  }

  lemma OneProcess(wm: Wm, p: Proc, u: Use)
    requires p.Csa? && p.jid == wm.jid && p.uid == wm.uid && p.btime == p.etime == wm.startTime
    requires Fits(Use(wm.uid, wm.prid, wm.stime), p.uid, p.prid)
    requires u == Use(wm.uid, if wm.prid == DEFAULT_PRID then p.prid else wm.prid, wm.stime + p.stime)
    ensures Process(Req([SegmentOf(wm)], 0), p) == Req([Segment(wm.jid, wm.startTime, wm.startTime, [u])], 0)
  {
    var s, r := SegmentOf(wm), Req([SegmentOf(wm)], 0);
    assert FindSeg(r.segs, 0, p.jid, p.btime) == Same(0);
    assert FirstFit(s.uses, 0, p.uid, p.prid) == 0;
    var named := Use(wm.uid, u.prid, wm.stime);
    assert FindUse(s.uses, p.uid, p.prid) == [named];
    var t := FindWm(r, p.prid, p.jid, p.uid, p.btime, p.etime);
    assert t == Req([s.(uses := [named])], 0);
    var c := Segment(wm.jid, wm.startTime, wm.startTime, [u]);
    assert StartPlace(r, p.btime) == 0 && UseAt(r, p.prid, p.jid, p.uid, p.btime) == 0;
    assert Counted(t.segs[0], 0, p) == c && t.segs[0 := c] == [c];
    assert Process(r, p) == t.(segs := t.segs[0 := Counted(t.segs[0], 0, p)]);
    assert Process(r, p) == Req([c], 0);
  }

  // A process without a project behind a record of project 7: its 5 are counted under project 7.
  lemma NoProjectIsAnyProject()
    ensures var wms, procs := [Wm(1, 0, 100, 7, 0)], [Csa(1, 100, DEFAULT_PRID, 0, 0, 5)];
            var segs := DoWm(wms, [], procs).segs;
            && segs == [Segment(1, 0, 0, [Use(100, 7, 5)])]
            && Sum(segs, Project(1, 100, 7)) == 5 && RecordSum(wms, [], procs, Project(1, 100, 7)) == 0
            && Sum(segs, Project(1, 100, DEFAULT_PRID)) == 0 && RecordSum(wms, [], procs, Project(1, 100, DEFAULT_PRID)) == 5
  {
    hide Sum, DoWm;
    LoneRequest(Wm(1, 0, 100, 7, 0), Csa(1, 100, DEFAULT_PRID, 0, 0, 5), Use(100, 7, 5));
  }

  // A process of project 7 behind a record without a project: the record's 3 are counted under project 7, too.
  lemma NoProjectGetsOne()
    ensures var wms, procs := [Wm(1, 0, 100, DEFAULT_PRID, 3)], [Csa(1, 100, 7, 0, 0, 5)];
            var segs := DoWm(wms, [], procs).segs;
            && segs == [Segment(1, 0, 0, [Use(100, 7, 8)])]
            && Sum(segs, Project(1, 100, 7)) == 8 && RecordSum(wms, [], procs, Project(1, 100, 7)) == 5
            && Sum(segs, Project(1, 100, DEFAULT_PRID)) == 0 && RecordSum(wms, [], procs, Project(1, 100, DEFAULT_PRID)) == 3
  {
    hide Sum, DoWm;
    LoneRequest(Wm(1, 0, 100, DEFAULT_PRID, 3), Csa(1, 100, 7, 0, 0, 5), Use(100, 7, 8));
  }
}
