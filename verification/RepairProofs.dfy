// Verify, delete the reported ranges, verify again: what the repaired file is, and that it verifies.

module RepairProofs {
  import opened Basics
  import opened AcctReader
  import opened VerifySpec
  import opened VerifyProofs
  import opened EditSpec

  // ---- The offset file is one csaedit accepts ----

  lemma {:induction false} BadsOrderly(tiles: seq<Tile>, p: nat)
    requires Tiled(tiles, p)
    ensures Orderly(Bads(tiles), p)
    ensures forall r :: r in Bads(tiles) ==> r.len > 0 && r.loc + r.len <= p
  {
    if tiles != [] {
      var t := tiles[|tiles| - 1];
      TiledPrefix(tiles, p);
      BadsOrderly(tiles[..|tiles| - 1], t.lo);
    }
  }

  // The bytes of a range lie in a file of n bytes.
  predicate Inside(r: Range, n: nat) {
    r.loc < n && (r.len == END_OF_FILE || r.loc + r.len <= n)
  }

  // Increasing, disjoint, of positive length, inside the file; only the last range may be open-ended.
  lemma OffsetsOrderly(f: seq<byte>, kind: FileKind, judge: Judge)
    ensures var ranges := Run(f, START, kind, judge).ranges;
            Orderly(ranges, |f|) && forall r :: r in ranges ==> Inside(r, |f|)
  {
    hide Run, Bads, Reads;
    StartInv(f, kind, judge);
    RunEndsFinal(f, START, kind, judge);
    var s := Run(f, START, kind, judge);
    BadsOrderly(s.tiles, s.prev);
  }

  // ---- What deletion leaves ----

  // The accepted entries that were not retracted, one after another.
  function GoodBytes(f: seq<byte>, tiles: seq<Tile>): seq<byte>
  {
    if tiles == [] then []
    else
      var t := tiles[|tiles| - 1];
      GoodBytes(f, tiles[..|tiles| - 1]) + if t.good && t.lo <= t.hi <= |f| then f[t.lo..t.hi] else []
  }

  // What is left of the file where the scan stopped.
  function Tail(f: seq<byte>, s: Scan, kind: FileKind, judge: Judge): seq<byte> {
    if s.prev <= |f| && Reads(f, s.prev, kind, judge).Finished? then f[s.prev..] else []
  }

  ghost predicate BadAt(tiles: seq<Tile>, i: nat) {
    exists t :: t in tiles && !t.good && t.lo <= i < t.hi
  }

  lemma {:induction false} BadsAreBadTiles(tiles: seq<Tile>, i: nat)
    requires forall t :: t in tiles ==> t.lo < t.hi
    ensures Covered(Bads(tiles), i) <==> BadAt(tiles, i)
  {
    if tiles != [] {
      var before, t := tiles[..|tiles| - 1], tiles[|tiles| - 1];
      BadsAreBadTiles(before, i);
      BadsOfLast(before, t, i);
      assert tiles == before + [t];
    }
  }

  lemma BadsOfLast(before: seq<Tile>, t: Tile, i: nat)
    requires t.lo < t.hi
    ensures Covered(Bads(before + [t]), i) <==> Covered(Bads(before), i) || (!t.good && t.lo <= i < t.hi)
    ensures BadAt(before + [t], i) <==> BadAt(before, i) || (!t.good && t.lo <= i < t.hi)
  {
    hide Bads;
    BadsPush(before, t);
    var all := Bads(before + [t]);
    if t.good {
      assert all == Bads(before);
    } else {
      CoveredPush(Bads(before), Range(t.lo, t.hi - t.lo), i);
    }
    assert forall x :: x in before + [t] <==> x in before || x == t;
  }

  lemma CoveredPush(ranges: seq<Range>, r: Range, i: nat)
    ensures Covered(ranges + [r], i) <==> Covered(ranges, i) || CoveredBy(r, i)
  {
    assert forall x :: x in ranges + [r] <==> x in ranges || x == r;
    if CoveredBy(r, i) {
      assert r in ranges + [r];
    }
  }

  lemma TileOrder(tiles: seq<Tile>, p: nat, i: int, j: int)
    requires Tiled(tiles, p) && 0 <= i < j < |tiles|
    ensures tiles[i].hi <= tiles[j].lo
    decreases j - i
  {
    if i + 1 < j {
      TileOrder(tiles, p, i, j - 1);
    }
  }

  // Inside tile k, a position is in a bad tile exactly when tile k is bad.
  lemma BadInTile(tiles: seq<Tile>, p: nat, k: nat, i: nat)
    requires Tiled(tiles, p) && k < |tiles| && tiles[k].lo <= i < tiles[k].hi
    ensures BadAt(tiles, i) <==> !tiles[k].good
  {
    if BadAt(tiles, i) {
      var t :| t in tiles && !t.good && t.lo <= i < t.hi;
      var j :| 0 <= j < |tiles| && tiles[j] == t;
      if j < k { TileOrder(tiles, p, j, k); }
      if k < j { TileOrder(tiles, p, k, j); }
    }
  }

  lemma LastHi(tiles: seq<Tile>, p: nat, k: nat)
    requires Tiled(tiles, p) && k < |tiles|
    ensures tiles[k].hi <= p
  {
    if k < |tiles| - 1 {
      TileOrder(tiles, p, k, |tiles| - 1);
    }
  }

  // Where the first k tiles end.
  function EndOf(tiles: seq<Tile>, k: nat): nat
    requires k <= |tiles|
  {
    if k == 0 then 0 else tiles[k - 1].hi
  }

  // Bytes of the first k tiles survive a set of ranges exactly when their tile is good.
  lemma {:induction false} KeptTiles(f: seq<byte>, ranges: seq<Range>, tiles: seq<Tile>, p: nat, k: nat)
    requires Tiled(tiles, p) && p <= |f| && k <= |tiles|
    requires forall i: nat :: i < p ==> (Covered(ranges, i) <==> BadAt(tiles, i))
    ensures EndOf(tiles, k) <= p
    ensures Kept(f, ranges, 0) == GoodBytes(f, tiles[..k]) + Kept(f, ranges, EndOf(tiles, k))
    decreases k
  {
    hide Covered, Kept, BadAt;
    if k > 0 {
      var t := tiles[k - 1];
      KeptTiles(f, ranges, tiles, p, k - 1);
      LastHi(tiles, p, k - 1);
      assert EndOf(tiles, k - 1) == t.lo;
      assert tiles[..k][..k - 1] == tiles[..k - 1];
      forall i: nat | t.lo <= i < t.hi
        ensures Covered(ranges, i) <==> !t.good
      {
        BadInTile(tiles, p, k - 1, i);
      }
      var good := GoodBytes(f, tiles[..k - 1]);
      if t.good {
        KeptUncovered(f, ranges, t.lo, t.hi);
        assert good + (f[t.lo..t.hi] + Kept(f, ranges, t.hi)) == (good + f[t.lo..t.hi]) + Kept(f, ranges, t.hi);
      } else {
        KeptCovered(f, ranges, t.lo, t.hi);
        assert good + [] == good;
      }
    }
  }

  // After deletion the good bytes remain, followed by whatever the scan never decided on.
  lemma KeptIsGood(f: seq<byte>, s: Scan, kind: FileKind, judge: Judge)
    requires Final(f, s, kind, judge)
    ensures Kept(f, s.ranges, 0) == GoodBytes(f, s.tiles) + Tail(f, s, kind, judge)
  {
    hide Kept, Bads, Reads;
    forall i: nat | i < s.prev
      ensures Covered(s.ranges, i) <==> BadAt(s.tiles, i)
    {
      BadsAreBadTiles(s.tiles, i);
      CoveredPush(Bads(s.tiles), Range(s.prev, END_OF_FILE), i);
    }
    KeptTiles(f, s.ranges, s.tiles, s.prev, |s.tiles|);
    assert s.tiles[..|s.tiles|] == s.tiles;
    KeptPastScan(f, s, kind, judge);
  }

  lemma KeptPastScan(f: seq<byte>, s: Scan, kind: FileKind, judge: Judge)
    requires Final(f, s, kind, judge)
    ensures Kept(f, s.ranges, s.prev) == Tail(f, s, kind, judge)
  {
    hide Bads, Reads;
    BadsOrderly(s.tiles, s.prev);
    if Reads(f, s.prev, kind, judge).Finished? {
      assert forall i: nat :: s.prev <= i ==> !Covered(s.ranges, i);
      KeptUncovered(f, s.ranges, s.prev, |f|);
    } else {
      forall i: nat | s.prev <= i
        ensures Covered(s.ranges, i)
      {
        CoveredPush(Bads(s.tiles), Range(s.prev, END_OF_FILE), i);
      }
      KeptCovered(f, s.ranges, s.prev, |f|);
    }
  }

  // ---- Files the verifier has nothing to say about ----

  // From p on, acceptable entries up to an end of file.
  ghost predicate Clean(f: seq<byte>, p: nat, kind: FileKind, judge: Judge)
    requires p <= |f|
    decreases |f| - p
  {
    match Reads(f, p, kind, judge)
    case Finished => true
    case Good(next) => Clean(f, next, kind, judge)
    case _ => false
  }

  // A run adds no range exactly when every entry from where it stands is acceptable.
  lemma {:induction false} CleanRunReportsNothing(f: seq<byte>, s: Scan, kind: FileKind, judge: Judge)
    requires InFile(f, s) && s.ranges == []
    ensures Run(f, s, kind, judge).ranges == [] <==> Clean(f, s.prev, kind, judge)
    decreases |f| - s.prevprev, Rank(f, s)
  {
    hide Reads, FirstPrimary;
    var step := NextStep(f, s.prevprev, s.prev, kind, judge);
    if !step.Stop? && !step.Quit? {
      StepDescends(f, s, kind, judge);
      var t := Advance(s, step);
      if step.Accept? {
        CleanRunReportsNothing(f, t, kind, judge);
      } else {
        ReportsStay(f, t, kind, judge);
      }
    }
  }

  lemma {:induction false} ReportsStay(f: seq<byte>, s: Scan, kind: FileKind, judge: Judge)
    requires InFile(f, s) && s.ranges != []
    ensures Run(f, s, kind, judge).ranges != []
    decreases |f| - s.prevprev, Rank(f, s)
  {
    hide Reads, FirstPrimary, Resync, Rank;
    var step := NextStep(f, s.prevprev, s.prev, kind, judge);
    if !step.Stop? && !step.Quit? {
      StepDescends(f, s, kind, judge);
      ReportsStay(f, Advance(s, step), kind, judge);
    }
  }

  // Whether an entry is acceptable depends on its bytes and the kind of the file, not on where it stands.
  lemma GoodIsLocal(f: seq<byte>, p: nat, g: seq<byte>, q: nat, kind: FileKind, other: FileKind, judge: Judge)
    requires p <= |f| && q <= |g|
    requires Reads(f, p, kind, judge).Good?
    requires SameBytes(f, p, g, q, Reads(f, p, kind, judge).next - p)
    ensures Reads(g, q, other, judge).Good? <==> Reads(f, p, other, judge).Good?
    ensures Reads(g, q, other, judge).Good? ==> Reads(g, q, other, judge) == Good(q + Reads(f, p, kind, judge).next - p)
  {
    hide ReadEntry, VerifyPrimary;
    EntryIsLocal(f, p, g, q, 0);
  }

  lemma {:induction false} GoodBytesStart(f: seq<byte>, tiles: seq<Tile>, k: nat)
    requires k <= |tiles|
    ensures |GoodBytes(f, tiles[..k])| <= |GoodBytes(f, tiles)|
    ensures GoodBytes(f, tiles)[..|GoodBytes(f, tiles[..k])|] == GoodBytes(f, tiles[..k])
    decreases |tiles| - k
  {
    if k < |tiles| {
      GoodBytesStart(f, tiles, k + 1);
      assert tiles[..k + 1][..k] == tiles[..k];
      var a, b := GoodBytes(f, tiles[..k]), GoodBytes(f, tiles[..k + 1]);
      assert b[..|a|] == a;
      assert GoodBytes(f, tiles)[..|b|][..|a|] == GoodBytes(f, tiles)[..|a|];
    } else {
      assert tiles[..k] == tiles;
    }
  }

  // The accepted entries from tile k on are acceptable in a file of this kind, too.
  ghost predicate AllFit(f: seq<byte>, tiles: seq<Tile>, k: nat, kind: FileKind, judge: Judge) {
    forall i :: k <= i < |tiles| && tiles[i].good ==> tiles[i].lo <= |f| && Reads(f, tiles[i].lo, kind, judge).Good?
  }

  lemma AllFitStep(f: seq<byte>, tiles: seq<Tile>, k: nat, kind: FileKind, judge: Judge)
    requires k <= |tiles|
    ensures if k == |tiles| then AllFit(f, tiles, k, kind, judge)
            else AllFit(f, tiles, k, kind, judge)
                 <==> AllFit(f, tiles, k + 1, kind, judge)
                      && (tiles[k].good ==> tiles[k].lo <= |f| && Reads(f, tiles[k].lo, kind, judge).Good?)
  {
    hide Reads;
  }

  lemma BadTileAdds(f: seq<byte>, tiles: seq<Tile>, k: nat)
    requires k < |tiles| && !tiles[k].good
    ensures GoodBytes(f, tiles[..k + 1]) == GoodBytes(f, tiles[..k])
  {
    assert tiles[..k + 1][..k] == tiles[..k];
  }

  // The entry of tile k in the repaired file
  lemma RepairedEntry(f: seq<byte>, s: Scan, kind: FileKind, other: FileKind, judge: Judge, g: seq<byte>, k: nat)
    requires Final(f, s, kind, judge) && k < |s.tiles| && s.tiles[k].good
    requires g == GoodBytes(f, s.tiles) + Tail(f, s, kind, judge)
    ensures var t, q, next := s.tiles[k], |GoodBytes(f, s.tiles[..k])|, |GoodBytes(f, s.tiles[..k + 1])|;
            && t.lo <= |f| && q <= |g| && next <= |g|
            && (Reads(g, q, other, judge).Good? <==> Reads(f, t.lo, other, judge).Good?)
            && (Reads(g, q, other, judge).Good? ==> Reads(g, q, other, judge) == Good(next))
  {
    hide Reads, Tail, GoodBytes;
    var t := s.tiles[k];
    assert t in s.tiles;
    LastHi(s.tiles, s.prev, k);
    GoodBytesStart(f, s.tiles, k);
    GoodBytesStart(f, s.tiles, k + 1);
    GoodTileInRepaired(f, s.tiles, k, g, s.prev, Tail(f, s, kind, judge));
    GoodIsLocal(f, t.lo, g, |GoodBytes(f, s.tiles[..k])|, kind, other, judge);
  }

  lemma CleanStep(g: seq<byte>, q: nat, next: nat, kind: FileKind, judge: Judge)
    requires q < |g| && next <= |g| && (Reads(g, q, kind, judge).Good? ==> Reads(g, q, kind, judge) == Good(next))
    requires !Reads(g, q, kind, judge).Finished?
    ensures Clean(g, q, kind, judge) <==> Reads(g, q, kind, judge).Good? && Clean(g, next, kind, judge)
  {
    hide Reads;
  }

  // In the repaired file, entry k starts after the good bytes of the tiles before it. Taken as a file of any kind, it has
  // acceptable entries from there on exactly when the accepted entries of the original fit that kind.
  lemma {:induction false} RepairedClean(f: seq<byte>, s: Scan, kind: FileKind, other: FileKind, judge: Judge, g: seq<byte>, k: nat)
    requires Final(f, s, kind, judge) && k <= |s.tiles|
    requires g == GoodBytes(f, s.tiles) + Tail(f, s, kind, judge)
    ensures |GoodBytes(f, s.tiles[..k])| <= |g|
    ensures Clean(g, |GoodBytes(f, s.tiles[..k])|, other, judge) <==> AllFit(f, s.tiles, k, other, judge)
    decreases |s.tiles| - k
  {
    hide Reads, Tail, GoodBytes, AllFit, Clean, Final;
    GoodBytesStart(f, s.tiles, k);
    AllFitStep(f, s.tiles, k, other, judge);
    if k == |s.tiles| {
      assert s.tiles[..k] == s.tiles;
      TailClean(f, s, kind, other, judge, g);
    } else {
      RepairedClean(f, s, kind, other, judge, g, k + 1);
      if s.tiles[k].good {
        RepairedEntry(f, s, kind, other, judge, g, k);
        EntryNotEnd(f, s, kind, other, judge, g, k);
        CleanStep(g, |GoodBytes(f, s.tiles[..k])|, |GoodBytes(f, s.tiles[..k + 1])|, other, judge);
      } else {
        BadTileAdds(f, s.tiles, k);
      }
    }
  }

  lemma EntryNotEnd(f: seq<byte>, s: Scan, kind: FileKind, other: FileKind, judge: Judge, g: seq<byte>, k: nat)
    requires Final(f, s, kind, judge) && k < |s.tiles| && s.tiles[k].good
    requires g == GoodBytes(f, s.tiles) + Tail(f, s, kind, judge)
    ensures |GoodBytes(f, s.tiles[..k])| < |g| && !Reads(g, |GoodBytes(f, s.tiles[..k])|, other, judge).Finished?
  {
    hide Reads, Tail, GoodBytes;
    var q := |GoodBytes(f, s.tiles[..k])|;
    RepairedEntry(f, s, kind, kind, judge, g, k);
    assert s.tiles[k] in s.tiles;
    FinishedMeansAtEnd(g, q, other, judge);
    FinishedMeansAtEnd(g, q, kind, judge);
  }

  lemma AcceptedFit(f: seq<byte>, tiles: seq<Tile>, kind: FileKind, judge: Judge)
    requires GoodTilesRead(f, tiles, kind, judge)
    ensures AllFit(f, tiles, 0, kind, judge)
  {
    hide Reads;
    forall i | 0 <= i < |tiles| && tiles[i].good
      ensures tiles[i].lo <= |f| && Reads(f, tiles[i].lo, kind, judge).Good?
    {
      assert tiles[i] in tiles;
    }
  }

  lemma GoodTileInRepaired(f: seq<byte>, tiles: seq<Tile>, k: nat, g: seq<byte>, p: nat, tail: seq<byte>)
    requires Tiled(tiles, p) && p <= |f| && k < |tiles| && tiles[k].good
    requires g == GoodBytes(f, tiles) + tail
    ensures var t, q := tiles[k], |GoodBytes(f, tiles[..k])|;
            SameBytes(f, t.lo, g, q, t.hi - t.lo) && |GoodBytes(f, tiles[..k + 1])| == q + t.hi - t.lo
  {
    LastHi(tiles, p, k);
    GoodBytesStart(f, tiles, k + 1);
    assert tiles[..k + 1][..k] == tiles[..k];
    var t, a, b := tiles[k], GoodBytes(f, tiles[..k]), GoodBytes(f, tiles[..k + 1]);
    assert b == a + f[t.lo..t.hi];
    assert g[..|b|] == GoodBytes(f, tiles)[..|b|] == b;
    assert g[|a|..|b|] == g[..|b|][|a|..] == f[t.lo..t.hi];
  }

  lemma TailClean(f: seq<byte>, s: Scan, kind: FileKind, other: FileKind, judge: Judge, g: seq<byte>)
    requires Final(f, s, kind, judge)
    requires g == GoodBytes(f, s.tiles) + Tail(f, s, kind, judge)
    ensures Clean(g, |GoodBytes(f, s.tiles)|, other, judge)
  {
    hide ReadEntry;
    var q := |GoodBytes(f, s.tiles)|;
    if Reads(f, s.prev, kind, judge).Finished? {
      assert g[q..] == f[s.prev..];
      FinishedMeansAtEnd(f, s.prev, kind, judge);
      EndIsLocal(f, s.prev, g, q, 0);
    } else {
      assert q == |g|;
    }
  }

  lemma FinishedMeansAtEnd(f: seq<byte>, p: nat, kind: FileKind, judge: Judge)
    requires p <= |f|
    ensures Reads(f, p, kind, judge).Finished? <==> ReadEntry(f, p, 0).AtEnd?
  {
    hide ReadEntry, VerifyPrimary;
  }

  // ---- The repair law ----

  // Verify any file and let csaedit delete what was reported. The editor succeeds; what it writes is the accepted and
  // not retracted entries in order, then the undecided tail; and verifying that file again reports nothing.
  lemma RepairLaw(f: seq<byte>, kind: FileKind, judge: Judge)
    requires Run(f, START, kind, judge).ranges != []
    ensures var s := Run(f, START, kind, judge);
            var g := GoodBytes(f, s.tiles) + Tail(f, s, kind, judge);
            && GoodTilesRead(f, s.tiles, kind, judge)
            && Edit(f, s.ranges, 0, []) == Edited(g)
            && Run(g, START, kind, judge).ranges == []
  {
    hide Run, Edit, Kept, Clean, Reads, Tail;
    var s := Run(f, START, kind, judge);
    var g := GoodBytes(f, s.tiles) + Tail(f, s, kind, judge);
    StartInv(f, kind, judge);
    RunEndsFinal(f, START, kind, judge);
    OffsetsOrderly(f, kind, judge);
    EditKeepsUncovered(f, s.ranges);
    KeptIsGood(f, s, kind, judge);
    AcceptedFit(f, s.tiles, kind, judge);
    RepairedClean(f, s, kind, kind, judge, g, 0);
    CleanRunReportsNothing(g, START, kind, judge);
  }

  // Acceptable entries one after another, from q up to p.
  ghost predicate GoodUpTo(f: seq<byte>, q: nat, p: nat, kind: FileKind, judge: Judge)
    requires q <= |f|
    decreases |f| - q
  {
    q == p || (Reads(f, q, kind, judge).Good? && GoodUpTo(f, Reads(f, q, kind, judge).next, p, kind, judge))
  }

  // A scan that meets acceptable entries up to an end of file stops there and reports nothing.
  lemma {:induction false} RunsUpTo(f: seq<byte>, s: Scan, p: nat, kind: FileKind, judge: Judge)
    requires InFile(f, s) && p <= |f| && GoodUpTo(f, s.prev, p, kind, judge) && Reads(f, p, kind, judge).Finished?
    ensures var t := Run(f, s, kind, judge); t.prev == p && t.ranges == s.ranges
    decreases |f| - s.prevprev, Rank(f, s)
  {
    hide Reads, FirstPrimary;
    if s.prev != p {
      StepDescends(f, s, kind, judge);
      RunsUpTo(f, Advance(s, NextStep(f, s.prevprev, s.prev, kind, judge)), p, kind, judge);
    }
  }

  // Where a scan that reports nothing more stops, having met acceptable entries only.
  lemma {:induction false} CleanEnds(f: seq<byte>, q: nat, kind: FileKind, judge: Judge) returns (p: nat)
    requires q <= |f| && Clean(f, q, kind, judge)
    ensures q <= p <= |f| && GoodUpTo(f, q, p, kind, judge) && Reads(f, p, kind, judge).Finished?
    decreases |f| - q
  {
    hide Reads;
    p := q;
    if Reads(f, q, kind, judge).Good? {
      p := CleanEnds(f, Reads(f, q, kind, judge).next, kind, judge);
    }
  }

  // A file whose acceptable entries are followed by a chain that runs into the end of the file: the scan reports
  // nothing, and exactly that chain is left undecided.
  lemma CutOffIsLeft(f: seq<byte>, p: nat, kind: FileKind, judge: Judge)
    requires p <= |f| && GoodUpTo(f, 0, p, kind, judge) && AllLinkedToEnd(f, p, 0)
    ensures var s := Run(f, START, kind, judge); s.ranges == [] && s.prev == p && Tail(f, s, kind, judge) == f[p..]
  {
    hide Run, Reads;
    AtEndMeansLinkedToEnd(f, p, 0);
    FinishedMeansAtEnd(f, p, kind, judge);
    RunsUpTo(f, START, p, kind, judge);
  }

  // Without a place in the file from which only linked records run up to its end, repair leaves accepted entries only.
  lemma NoCutOffNoTail(f: seq<byte>, kind: FileKind, judge: Judge)
    requires forall p :: 0 <= p < |f| ==> !AllLinkedToEnd(f, p, 0)
    ensures Tail(f, Run(f, START, kind, judge), kind, judge) == []
  {
    hide Run, Reads;
    TailOnlyWhenCutOff(f, kind, judge);
  }

  // Bytes at the end of a file go unreported exactly when the file is acceptable entries followed by such a chain.
  lemma UnreportedIff(f: seq<byte>, kind: FileKind, judge: Judge)
    ensures (Run(f, START, kind, judge).ranges == [] && Tail(f, Run(f, START, kind, judge), kind, judge) != [])
       <==> (exists p :: 0 <= p < |f| && GoodUpTo(f, 0, p, kind, judge) && AllLinkedToEnd(f, p, 0))
  {
    hide Run, Reads, AllLinkedToEnd, GoodUpTo, Clean;
    var s := Run(f, START, kind, judge);
    if s.ranges == [] && Tail(f, s, kind, judge) != [] {
      CleanRunReportsNothing(f, START, kind, judge);
      var p := CleanEnds(f, 0, kind, judge);
      RunsUpTo(f, START, p, kind, judge);
      FinishedMeansAtEnd(f, p, kind, judge);
      AtEndMeansLinkedToEnd(f, p, 0);
    }
    if p :| 0 <= p < |f| && GoodUpTo(f, 0, p, kind, judge) && AllLinkedToEnd(f, p, 0) {
      CutOffIsLeft(f, p, kind, judge);
    }
  }

  // The repaired file is nothing but accepted entries exactly when the scan did not stop inside an entry whose last
  // record, at the very end of the file, still announces another one.
  lemma TailOnlyWhenCutOff(f: seq<byte>, kind: FileKind, judge: Judge)
    ensures var s := Run(f, START, kind, judge);
            s.prev <= |f| && (Tail(f, s, kind, judge) == [] <==> s.prev == |f| || !AllLinkedToEnd(f, s.prev, 0))
  {
    hide Run, Reads;
    var s := Run(f, START, kind, judge);
    StartInv(f, kind, judge);
    RunEndsFinal(f, START, kind, judge);
    FinishedMeansAtEnd(f, s.prev, kind, judge);
    AtEndMeansLinkedToEnd(f, s.prev, 0);
  }
}
