// What every run of the verify loop keeps, and the shape of the offset file it leaves.

module VerifyProofs {
  import opened Basics
  import opened VerifySpec

  // Tiles of positive length that follow one another from 0 to p.
  ghost predicate Tiled(tiles: seq<Tile>, p: nat) {
    && (forall i :: 0 <= i < |tiles| ==> tiles[i].lo < tiles[i].hi)
    && (forall i :: 0 < i < |tiles| ==> tiles[i - 1].hi == tiles[i].lo)
    && (if tiles == [] then p == 0 else tiles[0].lo == 0 && tiles[|tiles| - 1].hi == p)
  }

  // The bad tiles as ranges of the offset file.
  function Bads(tiles: seq<Tile>): seq<Range> {
    if tiles == [] then []
    else
      var t := tiles[|tiles| - 1];
      Bads(tiles[..|tiles| - 1]) + if t.good then [] else [Range(t.lo, t.hi - t.lo)]
  }

  ghost predicate GoodTilesRead(f: seq<byte>, tiles: seq<Tile>, kind: FileKind, judge: Judge) {
    forall t :: t in tiles && t.good ==> t.lo <= |f| && Reads(f, t.lo, kind, judge) == Good(t.hi)
  }

  // The invariant of the loop. A range of length zero is there only while the same bytes are about to be read again.
  ghost predicate Inv(f: seq<byte>, s: Scan, kind: FileKind, judge: Judge) {
    && InFile(f, s)
    && Tiled(s.tiles, s.prev)
    && GoodTilesRead(f, s.tiles, kind, judge)
    && if s.prevprev < s.prev then
         s.tiles != [] && s.tiles[|s.tiles| - 1].lo == s.prevprev && s.ranges == Bads(s.tiles)
       else
         || s == START
         || (s.ranges == Bads(s.tiles) + [Range(s.prev, 0)] && Reads(f, s.prev, kind, judge).NeedsResync?)
  }

  // How a finished run leaves the scan: it stopped at an end of file, or gave up on everything from prev on.
  ghost predicate Final(f: seq<byte>, s: Scan, kind: FileKind, judge: Judge) {
    && s.prev <= |f|
    && Tiled(s.tiles, s.prev)
    && GoodTilesRead(f, s.tiles, kind, judge)
    && if Reads(f, s.prev, kind, judge).Finished? then s.ranges == Bads(s.tiles)
       else s.ranges == Bads(s.tiles) + [Range(s.prev, END_OF_FILE)]
  }

  lemma {:induction false} BadsLocs(tiles: seq<Tile>, p: nat)
    requires Tiled(tiles, p)
    ensures forall r :: r in Bads(tiles) ==> r.loc < p
  {
    if tiles != [] {
      TiledPrefix(tiles, p);
      BadsLocs(tiles[..|tiles| - 1], tiles[|tiles| - 1].lo);
    }
  }

  lemma TiledPrefix(tiles: seq<Tile>, p: nat)
    requires Tiled(tiles, p) && tiles != []
    ensures Tiled(tiles[..|tiles| - 1], tiles[|tiles| - 1].lo)
  {
  }

  lemma BadsPush(tiles: seq<Tile>, t: Tile)
    ensures Bads(tiles + [t]) == Bads(tiles) + if t.good then [] else [Range(t.lo, t.hi - t.lo)]
  {
    assert (tiles + [t])[..|tiles|] == tiles;
  }

  lemma TiledPush(tiles: seq<Tile>, p: nat, q: nat, good: bool)
    requires Tiled(tiles, p) && p < q
    ensures Tiled(tiles + [Tile(p, q, good)], q)
  {
  }

  lemma EmitBeyond(ranges: seq<Range>, r: Range)
    requires forall x :: x in ranges ==> x.loc < r.loc
    ensures Emit(ranges, r) == ranges + [r]
  {
  }

  lemma EmitReplaces(ranges: seq<Range>, x: Range, r: Range)
    requires x.loc == r.loc
    ensures Emit(ranges + [x], r) == ranges + [r]
  {
  }

  // A report at prev replaces the transient range there, and otherwise comes after everything reported so far.
  lemma EmitAtPrev(f: seq<byte>, s: Scan, kind: FileKind, judge: Judge, len: int)
    requires Inv(f, s, kind, judge)
    ensures Emit(s.ranges, Range(s.prev, len)) == Bads(s.tiles) + [Range(s.prev, len)]
  {
    BadsLocs(s.tiles, s.prev);
    if s.prevprev == s.prev && s != START {
      EmitReplaces(Bads(s.tiles), Range(s.prev, 0), Range(s.prev, len));
    } else {
      EmitBeyond(s.ranges, Range(s.prev, len));
    }
  }

  lemma InvAccept(f: seq<byte>, s: Scan, kind: FileKind, judge: Judge, next: nat)
    requires Inv(f, s, kind, judge) && Reads(f, s.prev, kind, judge) == Good(next)
    ensures Inv(f, Advance(s, Accept(next)), kind, judge)
  {
    hide Reads, Bads, Emit, GoodTilesRead, Tiled;
    BadsPush(s.tiles, Tile(s.prev, next, true));
    TiledPush(s.tiles, s.prev, next, true);
    GoodPush(f, s.tiles, Tile(s.prev, next, true), kind, judge);
    assert Bads(s.tiles) + [] == Bads(s.tiles);
    if s == START {
      NoBads();
    }
  }

  lemma NoBads()
    ensures Bads([]) == []
  {
  }

  lemma GoodPush(f: seq<byte>, tiles: seq<Tile>, t: Tile, kind: FileKind, judge: Judge)
    requires GoodTilesRead(f, tiles, kind, judge)
    requires t.good ==> t.lo <= |f| && Reads(f, t.lo, kind, judge) == Good(t.hi)
    ensures GoodTilesRead(f, tiles + [t], kind, judge)
  {
    hide Reads;
  }

  lemma GoodPrefix(f: seq<byte>, tiles: seq<Tile>, k: nat, kind: FileKind, judge: Judge)
    requires GoodTilesRead(f, tiles, kind, judge) && k <= |tiles|
    ensures GoodTilesRead(f, tiles[..k], kind, judge)
  {
    hide Reads;
  }

  lemma InvFlag(f: seq<byte>, s: Scan, kind: FileKind, judge: Judge, next: nat)
    requires Inv(f, s, kind, judge) && s.prev <= next <= |f|
    requires next == s.prev ==> s.prevprev < s.prev && Reads(f, s.prev, kind, judge).NeedsResync?
    ensures Inv(f, Advance(s, Flag(Range(s.prev, next - s.prev), next)), kind, judge)
  {
    hide Reads, Bads, Emit, GoodTilesRead, Tiled;
    EmitAtPrev(f, s, kind, judge, next - s.prev);
    if s.prev < next {
      BadsPush(s.tiles, Tile(s.prev, next, false));
      TiledPush(s.tiles, s.prev, next, false);
      GoodPush(f, s.tiles, Tile(s.prev, next, false), kind, judge);
    }
  }

  // A report at prevprev replaces the range of the last tile when that tile was bad already.
  lemma EmitAtPrevprev(before: seq<Tile>, t: Tile, r: Range)
    requires Tiled(before, t.lo) && r.loc == t.lo
    ensures Emit(Bads(before + [t]), r) == Bads(before) + [r]
  {
    hide Emit, Bads;
    BadsLocs(before, t.lo);
    BadsPush(before, t);
    if t.good {
      assert Bads(before + [t]) == Bads(before);
      EmitBeyond(Bads(before), r);
    } else {
      EmitReplaces(Bads(before), Range(t.lo, t.hi - t.lo), r);
    }
  }

  // An interior header shortens the previous record's tile and makes it bad.
  lemma InvRetract(f: seq<byte>, s: Scan, kind: FileKind, judge: Judge, h: nat)
    requires Inv(f, s, kind, judge) && s.prevprev < h < s.prev
    ensures Inv(f, Advance(s, Retract(Range(s.prevprev, h - s.prevprev), h)), kind, judge)
  {
    hide Reads, Bads, Emit, GoodTilesRead, Tiled;
    var before, t := s.tiles[..|s.tiles| - 1], s.tiles[|s.tiles| - 1];
    assert s.tiles == before + [t];
    TiledPrefix(s.tiles, s.prev);
    EmitAtPrevprev(before, t, Range(s.prevprev, h - s.prevprev));
    BadsPush(before, Tile(s.prevprev, h, false));
    TiledPush(before, s.prevprev, h, false);
    GoodPrefix(f, s.tiles, |s.tiles| - 1, kind, judge);
    GoodPush(f, before, Tile(s.prevprev, h, false), kind, judge);
  }

  lemma InvStep(f: seq<byte>, s: Scan, kind: FileKind, judge: Judge)
    requires Inv(f, s, kind, judge)
    requires var step := NextStep(f, s.prevprev, s.prev, kind, judge); !step.Stop? && !step.Quit?
    ensures Inv(f, Advance(s, NextStep(f, s.prevprev, s.prev, kind, judge)), kind, judge)
  {
    hide Inv, NextStep, Advance, Reads;
    assert InFile(f, s) by { InvInFile(f, s, kind, judge); }
    StepMeans(f, s, kind, judge);
    match NextStep(f, s.prevprev, s.prev, kind, judge)
    case Accept(next) => InvAccept(f, s, kind, judge, next);
    case Flag(bad, next) => InvFlag(f, s, kind, judge, next);
    case Retract(bad, next) => InvRetract(f, s, kind, judge, next);
  }

  // What a step that continues says of the bytes it leaves behind
  lemma StepMeans(f: seq<byte>, s: Scan, kind: FileKind, judge: Judge)
    requires InFile(f, s)
    ensures match NextStep(f, s.prevprev, s.prev, kind, judge)
            case Accept(next) => Reads(f, s.prev, kind, judge) == Good(next)
            case Flag(bad, next) =>
              && bad == Range(s.prev, next - s.prev) && s.prev <= next <= |f|
              && (next == s.prev ==> s.prevprev < s.prev && Reads(f, s.prev, kind, judge).NeedsResync?)
            case Retract(bad, next) => bad == Range(s.prevprev, next - s.prevprev) && s.prevprev < next < s.prev
            case _ => true
  {
    hide Reads, FirstPrimary;
  }

  lemma InvInFile(f: seq<byte>, s: Scan, kind: FileKind, judge: Judge)
    requires Inv(f, s, kind, judge)
    ensures InFile(f, s)
  {
  }

  lemma InvEnds(f: seq<byte>, s: Scan, kind: FileKind, judge: Judge)
    requires Inv(f, s, kind, judge)
    requires var step := NextStep(f, s.prevprev, s.prev, kind, judge); step.Stop? || step.Quit?
    ensures Final(f, Run(f, s, kind, judge), kind, judge)
  {
    hide Reads;
    EmitAtPrev(f, s, kind, judge, END_OF_FILE);
  }

  // Every run ends in a final state: the ranges are exactly the bad tiles, the good tiles are exactly accepted entries.
  lemma {:induction false} RunEndsFinal(f: seq<byte>, s: Scan, kind: FileKind, judge: Judge)
    requires Inv(f, s, kind, judge)
    ensures Final(f, Run(f, s, kind, judge), kind, judge)
    decreases |f| - s.prevprev, Rank(f, s)
  {
    hide Reads, Inv, Final;
    InvInFile(f, s, kind, judge);
    var step := NextStep(f, s.prevprev, s.prev, kind, judge);
    if step.Stop? || step.Quit? {
      InvEnds(f, s, kind, judge);
    } else {
      InvStep(f, s, kind, judge);
      StepDescends(f, s, kind, judge);
      RunEndsFinal(f, Advance(s, step), kind, judge);
    }
  }

  lemma StartInv(f: seq<byte>, kind: FileKind, judge: Judge)
    ensures Inv(f, START, kind, judge)
  {
  }
}
