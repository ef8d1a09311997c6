// What csaverify reports of a file, said without its loop: there is exactly one division of the file that what stands at
// its borders explains, and the offset file is that division.

module VerifyLaws {
  import opened Basics
  import opened AcctHeader
  import opened AcctReader
  import opened AcctWriter
  import opened EditSpec
  import opened VerifySpec
  import opened VerifyProofs

  // ---- What stands at a place ----

  // An entry up to `next` that neither the entry checks nor verify_primary object to
  ghost predicate Acceptable(f: seq<byte>, p: nat, next: nat, kind: FileKind, judge: Judge)
    requires p <= |f|
  {
    var r := ReadEntry(f, p, 0);
    r.Entry? && r.next == next && judge(r.recs) == NoError && VerifyPrimary(kind, r.recs) == Valid
  }

  // An entry up to `next` that is recognised, but unfit: for its contents, or in a file of this kind
  ghost predicate Unfit(f: seq<byte>, p: nat, next: nat, kind: FileKind, judge: Judge)
    requires p <= |f|
  {
    var r := ReadEntry(f, p, 0);
    && r.Entry? && r.next == next
    && (judge(r.recs) == OtherError || (judge(r.recs) == NoError && VerifyPrimary(kind, r.recs) == WrongKind))
  }

  // An entry whose first record has no business announcing another
  ghost predicate MisLinked(f: seq<byte>, p: nat, kind: FileKind, judge: Judge)
    requires p <= |f|
  {
    var r := ReadEntry(f, p, 0);
    r.Entry? && judge(r.recs) == NoError && VerifyPrimary(kind, r.recs) == IllegallyLinked
  }

  // Nothing that could be the start of an entry
  ghost predicate Unrecognised(f: seq<byte>, p: nat, kind: FileKind, judge: Judge)
    requires p <= |f|
  {
    var r := ReadEntry(f, p, 0);
    || r == Failed(-1)
    || (r.Entry? && (judge(r.recs) == HeaderError || (judge(r.recs) == NoError && VerifyPrimary(kind, r.recs) == CannotBePrimary)))
  }

  ghost predicate NoHeaderBetween(f: seq<byte>, p: nat, h: nat) {
    forall q :: p < q < h ==> !PrimaryAt(f, q)
  }

  ghost predicate NextHeader(f: seq<byte>, p: nat, h: nat) {
    p < h < |f| && PrimaryAt(f, h) && NoHeaderBetween(f, p, h)
  }

  // ---- The division of a file ----

  // An entry cut short: bytes that nothing recognises follow it, and a header stands inside it.
  ghost predicate CutShort(f: seq<byte>, lo: nat, hi: nat, kind: FileKind, judge: Judge)
    requires lo <= |f|
  {
    exists e :: hi < e <= |f| && (Acceptable(f, lo, e, kind, judge) || Unfit(f, lo, e, kind, judge)) && Unrecognised(f, e, kind, judge)
  }

  // Why a stretch is good or bad
  ghost predicate TileExplained(f: seq<byte>, t: Tile, kind: FileKind, judge: Judge)
    requires t.lo <= |f|
  {
    if t.good then Acceptable(f, t.lo, t.hi, kind, judge)
    else
      || Unfit(f, t.lo, t.hi, kind, judge)
      || (NextHeader(f, t.lo, t.hi)
          && (Unrecognised(f, t.lo, kind, judge) || MisLinked(f, t.lo, kind, judge) || CutShort(f, t.lo, t.hi, kind, judge)))
  }

  // No header inside a stretch is passed over when nothing behind the stretch is recognised.
  ghost predicate NoneMissed(f: seq<byte>, t: Tile, kind: FileKind, judge: Judge)
    requires t.hi <= |f|
  {
    Unrecognised(f, t.hi, kind, judge) ==> NoHeaderBetween(f, t.lo, t.hi)
  }

  // Why the division ends at p: an end of file, a record cut off there, or nothing to go on with
  ghost predicate EndExplained(f: seq<byte>, p: nat, kind: FileKind, judge: Judge)
    requires p <= |f|
  {
    var r := ReadEntry(f, p, 0);
    || r == AtEnd || r == Failed(-2) || r == Failed(-3)
    || ((Unrecognised(f, p, kind, judge) || MisLinked(f, p, kind, judge)) && NoHeaderBetween(f, p, |f|))
  }

  ghost predicate AllExplained(f: seq<byte>, tiles: seq<Tile>, kind: FileKind, judge: Judge) {
    forall i :: 0 <= i < |tiles| ==> tiles[i].lo <= |f| && TileExplained(f, tiles[i], kind, judge)
  }

  // The first n stretches pass over no header they should not.
  ghost predicate NoneMissedIn(f: seq<byte>, tiles: seq<Tile>, n: nat, kind: FileKind, judge: Judge)
  {
    forall i :: 0 <= i < n && i < |tiles| ==> tiles[i].hi <= |f| && NoneMissed(f, tiles[i], kind, judge)
  }

  ghost predicate Explains(f: seq<byte>, tiles: seq<Tile>, p: nat, kind: FileKind, judge: Judge) {
    && p <= |f| && Tiled(tiles, p)
    && AllExplained(f, tiles, kind, judge)
    && NoneMissedIn(f, tiles, |tiles|, kind, judge)
    && EndExplained(f, p, kind, judge)
  }

  // The lines of an offset file for this division
  ghost function Offsets(f: seq<byte>, tiles: seq<Tile>, p: nat): seq<Range>
    requires p <= |f|
  {
    Bads(tiles) + if ReadEntry(f, p, 0).AtEnd? then [] else [Range(p, END_OF_FILE)]
  }

  // ---- Every run ends in such a division ----

  lemma {:induction false} FailureCodes(f: seq<byte>, p: nat, nbytes: nat)
    requires p <= |f|
    ensures var r := ReadEntry(f, p, nbytes); r.Failed? ==> r.code == -1 || r.code == -2 || r.code == -3
    decreases |f| - p
  {
    hide PacctType, More, Decode, ConvertPacct, ValidType, RevTab;
    var r := ReadRecord(f, p, ACCTENTSIZ - nbytes);
    if r.Record? {
      FailureCodes(f, p + r.consumed, nbytes + |r.image|);
    }
  }

  // What the loop makes of the bytes at p
  lemma ReadingMeans(f: seq<byte>, p: nat, kind: FileKind, judge: Judge)
    requires p <= |f|
    ensures var r := Reads(f, p, kind, judge);
            && (r.Finished? ==> ReadEntry(f, p, 0) == AtEnd)
            && (r.Unreadable? ==> ReadEntry(f, p, 0) == Failed(-2) || ReadEntry(f, p, 0) == Failed(-3))
            && (r.NeedsResync? ==> Unrecognised(f, p, kind, judge))
            && (r.Good? ==> Acceptable(f, p, r.next, kind, judge))
            && (r.Linked? ==> MisLinked(f, p, kind, judge))
            && (r.Other? ==> Unfit(f, p, r.next, kind, judge))
    ensures Unrecognised(f, p, kind, judge) ==> Reads(f, p, kind, judge).NeedsResync?
  {
    hide ReadEntry, VerifyPrimary;
    FailureCodes(f, p, 0);
  }

  // What holds of the division while the loop runs; the header search of the last stretch is still to come.
  ghost predicate Explaining(f: seq<byte>, s: Scan, kind: FileKind, judge: Judge) {
    && AllExplained(f, s.tiles, kind, judge)
    && (s.prevprev < s.prev ==> s.tiles != [])
    && NoneMissedIn(f, s.tiles, if s.prevprev < s.prev then |s.tiles| - 1 else |s.tiles|, kind, judge)
  }

  lemma StartExplaining(f: seq<byte>, kind: FileKind, judge: Judge)
    ensures Explaining(f, START, kind, judge)
  {
  }

  lemma ExplainedPush(f: seq<byte>, tiles: seq<Tile>, t: Tile, kind: FileKind, judge: Judge)
    requires AllExplained(f, tiles, kind, judge) && t.lo <= |f| && TileExplained(f, t, kind, judge)
    ensures AllExplained(f, tiles + [t], kind, judge)
  {
    hide TileExplained;
  }

  lemma NoneMissedPush(f: seq<byte>, tiles: seq<Tile>, n: nat, t: Tile, kind: FileKind, judge: Judge)
    requires NoneMissedIn(f, tiles, n, kind, judge) && n <= |tiles|
    ensures NoneMissedIn(f, tiles + [t], n, kind, judge)
  {
    hide NoneMissed;
  }

  // With the last stretch settled, all are.
  lemma NoneMissedLast(f: seq<byte>, tiles: seq<Tile>, kind: FileKind, judge: Judge)
    requires tiles != [] && NoneMissedIn(f, tiles, |tiles| - 1, kind, judge)
    requires tiles[|tiles| - 1].hi <= |f| && NoneMissed(f, tiles[|tiles| - 1], kind, judge)
    ensures NoneMissedIn(f, tiles, |tiles|, kind, judge)
  {
    hide NoneMissed;
  }

  // The last stretch is settled once the bytes behind it are recognised, or no header stands in it.
  lemma Settle(f: seq<byte>, s: Scan, kind: FileKind, judge: Judge)
    requires Inv(f, s, kind, judge) && Explaining(f, s, kind, judge)
    requires !Unrecognised(f, s.prev, kind, judge) || NoHeaderBetween(f, s.prevprev, s.prev)
    ensures NoneMissedIn(f, s.tiles, |s.tiles|, kind, judge)
  {
    hide Bads, GoodTilesRead, Unrecognised, PrimaryAt, TileExplained;
    if s.prevprev < s.prev {
      NoneMissedLast(f, s.tiles, kind, judge);
    }
  }

  lemma AcceptExplains(f: seq<byte>, s: Scan, kind: FileKind, judge: Judge, next: nat)
    requires Inv(f, s, kind, judge) && Explaining(f, s, kind, judge) && Acceptable(f, s.prev, next, kind, judge)
    ensures Explaining(f, Advance(s, Accept(next)), kind, judge)
  {
    hide Inv, ReadEntry, VerifyPrimary, AllExplained, NoneMissedIn;
    Settle(f, s, kind, judge);
    assert TileExplained(f, Tile(s.prev, next, true), kind, judge);
    ExplainedPush(f, s.tiles, Tile(s.prev, next, true), kind, judge);
    NoneMissedPush(f, s.tiles, |s.tiles|, Tile(s.prev, next, true), kind, judge);
  }

  // A stretch from prev on is reported for one of these reasons.
  ghost predicate Reason(f: seq<byte>, s: Scan, next: nat, kind: FileKind, judge: Judge)
    requires InFile(f, s)
  {
    && s.prev <= next <= |f|
    && if Unrecognised(f, s.prev, kind, judge)
       then NoHeaderBetween(f, s.prevprev, s.prev) && if next == s.prev then s.prevprev < s.prev else NextHeader(f, s.prev, next)
       else Unfit(f, s.prev, next, kind, judge) || (MisLinked(f, s.prev, kind, judge) && NextHeader(f, s.prev, next))
  }

  // What every step says of the bytes around prev
  lemma StepIs(f: seq<byte>, s: Scan, kind: FileKind, judge: Judge)
    requires InFile(f, s)
    ensures var step := NextStep(f, s.prevprev, s.prev, kind, judge);
            && (step.Stop? ==> ReadEntry(f, s.prev, 0) == AtEnd)
            && (step.Quit? ==> step.bad == Range(s.prev, END_OF_FILE) && EndExplained(f, s.prev, kind, judge)
                               && ReadEntry(f, s.prev, 0) != AtEnd
                               && (Unrecognised(f, s.prev, kind, judge) ==> NoHeaderBetween(f, s.prevprev, s.prev)))
            && (step.Accept? ==> Acceptable(f, s.prev, step.next, kind, judge))
            && (step.Flag? ==> step.bad == Range(s.prev, step.next - s.prev) && Reason(f, s, step.next, kind, judge))
            && (step.Retract? ==> step.bad == Range(s.prevprev, step.next - s.prevprev) && step.next < s.prev
                                  && Unrecognised(f, s.prev, kind, judge) && NextHeader(f, s.prevprev, step.next))
  {
    hide ReadEntry, VerifyPrimary, PrimaryAt, Reads, FirstPrimary;
    ReadingMeans(f, s.prev, kind, judge);
  }

  lemma FlagExplains(f: seq<byte>, s: Scan, kind: FileKind, judge: Judge, next: nat)
    requires Inv(f, s, kind, judge) && Explaining(f, s, kind, judge) && InFile(f, s) && Reason(f, s, next, kind, judge)
    ensures Explaining(f, Advance(s, Flag(Range(s.prev, next - s.prev), next)), kind, judge)
  {
    hide Inv, ReadEntry, VerifyPrimary, AllExplained, NoneMissedIn, Unfit, MisLinked, Unrecognised;
    Settle(f, s, kind, judge);
    if s.prev < next {
      ExplainedPush(f, s.tiles, Tile(s.prev, next, false), kind, judge);
      NoneMissedPush(f, s.tiles, |s.tiles|, Tile(s.prev, next, false), kind, judge);
    }
  }

  lemma RetractExplains(f: seq<byte>, s: Scan, kind: FileKind, judge: Judge, h: nat)
    requires Inv(f, s, kind, judge) && Explaining(f, s, kind, judge) && Unrecognised(f, s.prev, kind, judge)
    requires h < s.prev && NextHeader(f, s.prevprev, h)
    ensures Explaining(f, Advance(s, Retract(Range(s.prevprev, h - s.prevprev), h)), kind, judge)
  {
    hide ReadEntry, VerifyPrimary, NoneMissed, PrimaryAt, Unrecognised, Unfit, Acceptable, MisLinked, Bads, GoodTilesRead, Reads;
    var n := |s.tiles| - 1;
    var t := s.tiles[n];
    assert t.lo == s.prevprev && t.hi == s.prev && TileExplained(f, t, kind, judge);
    assert CutShort(f, s.prevprev, h, kind, judge);
    assert AllExplained(f, s.tiles[..n], kind, judge);
    ExplainedPush(f, s.tiles[..n], Tile(s.prevprev, h, false), kind, judge);
    assert NoneMissedIn(f, s.tiles[..n], n, kind, judge);
    NoneMissedPush(f, s.tiles[..n], n, Tile(s.prevprev, h, false), kind, judge);
  }

  lemma StepExplains(f: seq<byte>, s: Scan, kind: FileKind, judge: Judge)
    requires Inv(f, s, kind, judge) && Explaining(f, s, kind, judge)
    requires var step := NextStep(f, s.prevprev, s.prev, kind, judge); !step.Stop? && !step.Quit?
    ensures Explaining(f, Advance(s, NextStep(f, s.prevprev, s.prev, kind, judge)), kind, judge)
  {
    hide Inv, Explaining, NextStep, Advance, Unrecognised, Acceptable, Reason, NextHeader;
    InvInFile(f, s, kind, judge);
    StepIs(f, s, kind, judge);
    var step := NextStep(f, s.prevprev, s.prev, kind, judge);
    match step
    case Accept(next) => AcceptExplains(f, s, kind, judge, next);
    case Flag(bad, next) => FlagExplains(f, s, kind, judge, next);
    case Retract(bad, next) => RetractExplains(f, s, kind, judge, next);
  }

  lemma EndExplains(f: seq<byte>, s: Scan, kind: FileKind, judge: Judge)
    requires Inv(f, s, kind, judge) && Explaining(f, s, kind, judge)
    requires var step := NextStep(f, s.prevprev, s.prev, kind, judge); step.Stop? || step.Quit?
    ensures var t := Run(f, s, kind, judge);
            t.tiles == s.tiles && t.prev == s.prev && Explains(f, t.tiles, t.prev, kind, judge)
  {
    hide NextStep, Unrecognised, MisLinked, Bads, GoodTilesRead, Reads, ReadEntry, AllExplained, NoneMissedIn, PrimaryAt;
    StepIs(f, s, kind, judge);
    NotBoth(f, s.prev, kind, judge);
    Settle(f, s, kind, judge);
  }

  lemma NotBoth(f: seq<byte>, p: nat, kind: FileKind, judge: Judge)
    requires p <= |f|
    ensures ReadEntry(f, p, 0) == AtEnd ==> !Unrecognised(f, p, kind, judge)
  {
    hide ReadEntry;
  }

  lemma {:induction false} RunExplains(f: seq<byte>, s: Scan, kind: FileKind, judge: Judge)
    requires Inv(f, s, kind, judge) && Explaining(f, s, kind, judge)
    ensures var t := Run(f, s, kind, judge); Explains(f, t.tiles, t.prev, kind, judge)
    decreases |f| - s.prevprev, Rank(f, s)
  {
    hide NextStep, Inv, Explaining, Explains;
    InvInFile(f, s, kind, judge);
    var step := NextStep(f, s.prevprev, s.prev, kind, judge);
    if step.Stop? || step.Quit? {
      EndExplains(f, s, kind, judge);
    } else {
      InvStep(f, s, kind, judge);
      StepExplains(f, s, kind, judge);
      StepDescends(f, s, kind, judge);
      RunExplains(f, Advance(s, step), kind, judge);
    }
  }

  // ---- There is only one such division ----

  // Two divisions of a file that agree on the first k stretches agree on one more.
  lemma NextTileSame(f: seq<byte>, a: seq<Tile>, p: nat, b: seq<Tile>, q: nat, k: nat, kind: FileKind, judge: Judge)
    requires Explains(f, a, p, kind, judge) && Explains(f, b, q, kind, judge)
    requires k < |a| && k <= |b| && a[..k] == b[..k]
    ensures k < |b| && a[k] == b[k]
  {
    hide ReadEntry, VerifyPrimary, PrimaryAt, AllExplained, NoneMissedIn, EndExplained;
    var lo := a[k].lo;
    assert k > 0 ==> a[k - 1] == a[..k][k - 1] == b[..k][k - 1] == b[k - 1];
    Explained(f, a, p, k, kind, judge);
    if k < |b| {
      Explained(f, b, q, k, kind, judge);
      SameStretch(f, a[k], b[k], kind, judge);
    } else {
      EndNotStretch(f, a[k], kind, judge);
    }
  }

  lemma Explained(f: seq<byte>, tiles: seq<Tile>, p: nat, k: nat, kind: FileKind, judge: Judge)
    requires Explains(f, tiles, p, kind, judge) && k < |tiles|
    ensures var t := tiles[k];
            t.lo < t.hi <= |f| && TileExplained(f, t, kind, judge) && NoneMissed(f, t, kind, judge)
  {
    hide TileExplained, NoneMissed, EndExplained;
  }

  lemma SameStretch(f: seq<byte>, t: Tile, u: Tile, kind: FileKind, judge: Judge)
    requires t.lo == u.lo && t.lo < t.hi <= |f| && u.lo < u.hi <= |f|
    requires TileExplained(f, t, kind, judge) && NoneMissed(f, t, kind, judge)
    requires TileExplained(f, u, kind, judge) && NoneMissed(f, u, kind, judge)
    ensures t == u
  {
    hide ReadEntry, VerifyPrimary, PrimaryAt;
  }

  lemma EndNotStretch(f: seq<byte>, t: Tile, kind: FileKind, judge: Judge)
    requires t.lo < t.hi <= |f| && TileExplained(f, t, kind, judge)
    ensures !EndExplained(f, t.lo, kind, judge)
  {
    hide ReadEntry, VerifyPrimary, PrimaryAt;
  }

  lemma {:induction false} TilesSame(f: seq<byte>, a: seq<Tile>, p: nat, b: seq<Tile>, q: nat, k: nat, kind: FileKind, judge: Judge)
    requires Explains(f, a, p, kind, judge) && Explains(f, b, q, kind, judge) && k <= |a|
    ensures k <= |b| && a[..k] == b[..k]
    decreases k
  {
    hide Explains;
    if k > 0 {
      TilesSame(f, a, p, b, q, k - 1, kind, judge);
      NextTileSame(f, a, p, b, q, k - 1, kind, judge);
      assert a[..k] == a[..k - 1] + [a[k - 1]] && b[..k] == b[..k - 1] + [b[k - 1]];
    }
  }

  // The main result: every file has one division that what stands at its borders explains, and csaverify reports its bad
  // stretches, and everything from its end on unless that is an end of file.
  lemma OffsetFileIs(f: seq<byte>, tiles: seq<Tile>, p: nat, kind: FileKind, judge: Judge)
    ensures var s := Run(f, START, kind, judge);
            && (Explains(f, tiles, p, kind, judge) <==> tiles == s.tiles && p == s.prev)
            && (Explains(f, tiles, p, kind, judge) ==> s.ranges == Offsets(f, tiles, p))
  {
    hide Run, Explains, Inv, Explaining, Reads, Bads;
    var s := Run(f, START, kind, judge);
    StartInv(f, kind, judge);
    StartExplaining(f, kind, judge);
    RunExplains(f, START, kind, judge);
    if Explains(f, tiles, p, kind, judge) {
      TilesSame(f, tiles, p, s.tiles, s.prev, |tiles|, kind, judge);
      TilesSame(f, s.tiles, s.prev, tiles, p, |s.tiles|, kind, judge);
      assert tiles[..|tiles|] == tiles && s.tiles[..|s.tiles|] == s.tiles;
      SameEnd(f, tiles, p, s.prev, kind, judge);
      RunEndsFinal(f, START, kind, judge);
      ReadingMeans(f, p, kind, judge);
      ReadsEnd(f, p, kind, judge);
    }
  }

  lemma SameEnd(f: seq<byte>, tiles: seq<Tile>, p: nat, q: nat, kind: FileKind, judge: Judge)
    requires Explains(f, tiles, p, kind, judge) && Explains(f, tiles, q, kind, judge)
    ensures p == q
  {
  }

  lemma ReadsEnd(f: seq<byte>, p: nat, kind: FileKind, judge: Judge)
    requires p <= |f|
    ensures ReadEntry(f, p, 0).AtEnd? ==> Reads(f, p, kind, judge).Finished?
  {
    hide ReadEntry;
  }

  // ---- What this says of single ranges ----

  lemma {:induction false} BadTileReported(tiles: seq<Tile>, k: nat)
    requires k < |tiles| && !tiles[k].good
    ensures Range(tiles[k].lo, tiles[k].hi - tiles[k].lo) in Bads(tiles)
    decreases |tiles|
  {
    var n := |tiles| - 1;
    if k < n {
      BadTileReported(tiles[..n], k);
    }
  }

  // A range to the end of the file is reported only where a record is cut off by the end of the file, or where no primary
  // header follows.
  lemma OpenEndMeans(f: seq<byte>, kind: FileKind, judge: Judge, r: Range)
    requires r in Run(f, START, kind, judge).ranges && r.len == END_OF_FILE
    ensures r.loc < |f|
    ensures ReadEntry(f, r.loc, 0) == Failed(-2) || ReadEntry(f, r.loc, 0) == Failed(-3)
            || (forall q :: r.loc < q < |f| ==> !PrimaryAt(f, q))
  {
    hide Run, Bads, Reads, PrimaryAt, ReadEntry, VerifyPrimary;
    var s := Run(f, START, kind, judge);
    OffsetFileIs(f, s.tiles, s.prev, kind, judge);
    BadsPositive(s.tiles, s.prev);
    NothingBehindEnd(f, s.prev);
  }

  lemma {:induction false} BadsPositive(tiles: seq<Tile>, p: nat)
    requires Tiled(tiles, p)
    ensures forall r :: r in Bads(tiles) ==> r.len > 0
  {
    if tiles != [] {
      TiledPrefix(tiles, p);
      BadsPositive(tiles[..|tiles| - 1], tiles[|tiles| - 1].lo);
    }
  }

  lemma NothingBehindEnd(f: seq<byte>, p: nat)
    requires p <= |f| && ReadEntry(f, p, 0) != AtEnd
    ensures p < |f|
  {
  }

  // An acceptable entry at the start of a stretch is that stretch, or is cut short at a header inside it because nothing
  // behind it is recognised.
  lemma AcceptableStretch(f: seq<byte>, t: Tile, e: nat, kind: FileKind, judge: Judge)
    requires t.lo < t.hi <= |f| && TileExplained(f, t, kind, judge) && Acceptable(f, t.lo, e, kind, judge)
    ensures t.good ==> t.hi == e
    ensures !t.good ==> t.hi < e <= |f| && Unrecognised(f, e, kind, judge) && NextHeader(f, t.lo, t.hi)
  {
    hide ReadEntry, VerifyPrimary, PrimaryAt;
  }

  lemma DamagedStretch(f: seq<byte>, t: Tile, kind: FileKind, judge: Judge)
    requires t.lo <= |f| && TileExplained(f, t, kind, judge) && ReadEntry(f, t.lo, 0) == Failed(-1)
    ensures !t.good && NextHeader(f, t.lo, t.hi)
  {
    hide ReadEntry, VerifyPrimary, PrimaryAt;
  }

  lemma AcceptableNoEnd(f: seq<byte>, p: nat, e: nat, kind: FileKind, judge: Judge)
    requires p <= |f| && Acceptable(f, p, e, kind, judge)
    ensures !EndExplained(f, p, kind, judge)
  {
    hide ReadEntry, VerifyPrimary, PrimaryAt;
  }

  lemma NextTile(f: seq<byte>, tiles: seq<Tile>, p: nat, k: nat, kind: FileKind, judge: Judge)
    requires Explains(f, tiles, p, kind, judge) && k < |tiles|
    ensures if k + 1 == |tiles| then tiles[k].hi == p && EndExplained(f, p, kind, judge) else tiles[k + 1].lo == tiles[k].hi
  {
    hide AllExplained, NoneMissedIn, EndExplained;
  }

  // Where a scan meets a header it does not know, exactly the bytes up to the next primary header are reported. An
  // acceptable entry there is kept, unless a header stands inside it and nothing behind it is recognised.
  lemma DamageIsReported(f: seq<byte>, kind: FileKind, judge: Judge, k: nat)
    requires k < |Run(f, START, kind, judge).tiles|
    requires var p := Run(f, START, kind, judge).tiles[k].lo; p <= |f| && ReadEntry(f, p, 0) == Failed(-1)
    ensures var s := Run(f, START, kind, judge);
            var p, h := s.tiles[k].lo, s.tiles[k].hi;
            && NextHeader(f, p, h) && Range(p, h - p) in s.ranges
            && forall e :: h <= e <= |f| && Acceptable(f, h, e, kind, judge) ==>
                 && k + 1 < |s.tiles| && s.tiles[k + 1].lo == h
                 && (s.tiles[k + 1] == Tile(h, e, true) || (Unrecognised(f, e, kind, judge) && !NoHeaderBetween(f, h, e)))
  {
    hide Run, Bads, Reads, PrimaryAt, ReadEntry, VerifyPrimary, Explains, TileExplained, NoneMissed, Unrecognised, Acceptable,
         EndExplained;
    var s := Run(f, START, kind, judge);
    OffsetFileIs(f, s.tiles, s.prev, kind, judge);
    Explained(f, s.tiles, s.prev, k, kind, judge);
    DamagedStretch(f, s.tiles[k], kind, judge);
    BadTileReported(s.tiles, k);
    NextTile(f, s.tiles, s.prev, k, kind, judge);
    var h := s.tiles[k].hi;
    forall e | h <= e <= |f| && Acceptable(f, h, e, kind, judge)
      ensures k + 1 < |s.tiles| && s.tiles[k + 1].lo == h
      ensures s.tiles[k + 1] == Tile(h, e, true) || (Unrecognised(f, e, kind, judge) && !NoHeaderBetween(f, h, e))
    {
      AcceptableNoEnd(f, h, e, kind, judge);
      Explained(f, s.tiles, s.prev, k + 1, kind, judge);
      AcceptableStretch(f, s.tiles[k + 1], e, kind, judge);
    }
  }

  // ---- Damage between sound entries ----

  // Acceptable entries, each starting where the one before it ends, from p to q
  ghost predicate Entries(f: seq<byte>, tiles: seq<Tile>, p: nat, q: nat, kind: FileKind, judge: Judge) {
    && (forall i :: 0 <= i < |tiles| ==>
          tiles[i].good && tiles[i].lo < tiles[i].hi <= |f| && Acceptable(f, tiles[i].lo, tiles[i].hi, kind, judge))
    && (forall i :: 0 < i < |tiles| ==> tiles[i - 1].hi == tiles[i].lo)
    && (if tiles == [] then p == q else tiles[0].lo == p && tiles[|tiles| - 1].hi == q)
  }

  lemma {:induction false} GoodBads(tiles: seq<Tile>)
    requires forall i :: 0 <= i < |tiles| ==> tiles[i].good
    ensures Bads(tiles) == []
  {
    if tiles != [] {
      GoodBads(tiles[..|tiles| - 1]);
    }
  }

  lemma {:induction false} BadsAround(before: seq<Tile>, t: Tile, after: seq<Tile>)
    requires !t.good && (forall i :: 0 <= i < |before| ==> before[i].good) && (forall i :: 0 <= i < |after| ==> after[i].good)
    ensures Bads(before + [t] + after) == [Range(t.lo, t.hi - t.lo)]
    decreases |after|
  {
    hide Bads;
    if after == [] {
      GoodBads(before);
      BadsPush(before, t);
      assert before + [t] + after == before + [t];
    } else {
      var n := |after| - 1;
      BadsAround(before, t, after[..n]);
      BadsPush(before + [t] + after[..n], after[n]);
      assert before + [t] + after == before + [t] + after[..n] + [after[n]];
    }
  }

  // Acceptable entries, bytes that are not recognised up to the next header, and acceptable entries from there to the end:
  // exactly the bytes in between are reported, provided no header stands inside the last entry before them.
  lemma DamageIsCutOut(f: seq<byte>, before: seq<Tile>, p: nat, h: nat, after: seq<Tile>, kind: FileKind, judge: Judge)
    requires p <= |f| && Entries(f, before, 0, p, kind, judge) && Entries(f, after, h, |f|, kind, judge)
    requires Unrecognised(f, p, kind, judge) && NextHeader(f, p, h)
    requires before != [] ==> NoHeaderBetween(f, before[|before| - 1].lo, p)
    ensures Run(f, START, kind, judge).ranges == [Range(p, h - p)]
  {
    hide Run, Bads, Reads, PrimaryAt, ReadEntry, VerifyPrimary, TileExplained, Unrecognised, Acceptable, EndExplained;
    var t := Tile(p, h, false);
    var tiles := before + [t] + after;
    assert after != [];
    forall i | 0 <= i < |tiles|
      ensures tiles[i].lo < tiles[i].hi <= |f| && TileExplained(f, tiles[i], kind, judge) && NoneMissed(f, tiles[i], kind, judge)
    {
      CutOutTile(f, before, p, h, after, kind, judge, i);
    }
    assert Tiled(tiles, |f|);
    assert EndExplained(f, |f|, kind, judge) && ReadEntry(f, |f|, 0) == AtEnd by { AtTheEnd(f, kind, judge); }
    OffsetFileIs(f, tiles, |f|, kind, judge);
    BadsAround(before, t, after);
  }

  lemma AtTheEnd(f: seq<byte>, kind: FileKind, judge: Judge)
    ensures ReadEntry(f, |f|, 0) == AtEnd && EndExplained(f, |f|, kind, judge)
  {
  }

  lemma AcceptableRecognised(f: seq<byte>, p: nat, e: nat, kind: FileKind, judge: Judge)
    requires p <= |f| && Acceptable(f, p, e, kind, judge)
    ensures !Unrecognised(f, p, kind, judge)
  {
    hide ReadEntry, VerifyPrimary;
  }

  lemma CutOutTile(f: seq<byte>, before: seq<Tile>, p: nat, h: nat, after: seq<Tile>, kind: FileKind, judge: Judge, i: nat)
    requires p <= |f| && Entries(f, before, 0, p, kind, judge) && Entries(f, after, h, |f|, kind, judge)
    requires Unrecognised(f, p, kind, judge) && NextHeader(f, p, h)
    requires before != [] ==> NoHeaderBetween(f, before[|before| - 1].lo, p)
    requires i < |before| + 1 + |after|
    ensures var t := (before + [Tile(p, h, false)] + after)[i];
            t.lo < t.hi <= |f| && TileExplained(f, t, kind, judge) && NoneMissed(f, t, kind, judge)
  {
    hide PrimaryAt, ReadEntry, VerifyPrimary, Unrecognised, Acceptable;
    var tiles := before + [Tile(p, h, false)] + after;
    var t := tiles[i];
    if t.hi == |f| {
      AtTheEnd(f, kind, judge);
      NotBoth(f, |f|, kind, judge);
    } else if i + 1 < |tiles| && i != |before| - 1 {
      assert t.hi == tiles[i + 1].lo;
      AcceptableRecognised(f, t.hi, tiles[i + 1].hi, kind, judge);
    }
  }

  // ---- Headers and verdicts in bytes ----

  // Which eight bytes are the header of a primary record: magic, revision, type, any flags, size. No site record is among
  // them, because site types have no revision.
  ghost predicate PrimaryBytes(b: seq<byte>)
    requires |b| == HDR_SIZE
  {
    && b[..3] == [0x4A, 0x31, 0] && b[7] == 0
    && (|| (b[4] == 1 && b[3] == 12 && b[6] == 136) || (b[4] == 10 && b[3] == 12 && b[6] == 40)
        || (b[4] == 12 && b[3] == 12 && b[6] == 120) || (b[4] == 16 && b[3] == 12 && b[6] == 216)
        || (b[4] == 82 && b[3] == 12 && b[6] == 208) || (b[4] == 144 && b[3] == 16 && b[6] == 88))
  }

  lemma HeadersAre(f: seq<byte>, p: nat)
    ensures PrimaryAt(f, p) <==> p + HDR_SIZE <= |f| && PrimaryBytes(f[p..p + HDR_SIZE])
  {
    if p + HDR_SIZE <= |f| {
      var b := f[p..p + HDR_SIZE];
      assert b[..3] == [b[0], b[1], b[2]];
    }
  }

  // Only the last record of an entry announces no other.
  lemma FirstLinked(f: seq<byte>, p: nat)
    requires p <= |f| && ReadEntry(f, p, 0).Entry?
    ensures var recs := ReadEntry(f, p, 0).recs; More(Decode(recs[0]).flag) <==> |recs| > 1
  {
    hide ReadRecord, More, Decode, PacctType;
  }

  // The last workload management record of an entry is a consolidated one: its type, at offset 16, is 6.
  ghost predicate LastWkmgConsolidated(recs: seq<seq<byte>>)
    requires forall k :: 0 <= k < |recs| ==> |recs[k]| >= HDR_SIZE
  {
    exists k :: 0 <= k < |recs| && recs[k][4] == 82 && (forall j :: k < j < |recs| ==> recs[j][4] != 82)
                && |recs[k]| >= 18 && recs[k][16] == 6 && recs[k][17] == 0
  }

  lemma {:induction false} LastWkmgIs(recs: seq<seq<byte>>) returns (k: nat)
    requires recs != [] && (forall k :: 0 <= k < |recs| ==> |recs[k]| >= HDR_SIZE) && recs[0][4] == 82
    ensures k < |recs| && recs[k] == LastWkmg(recs) && recs[k][4] == 82
    ensures forall j :: k < j < |recs| ==> recs[j][4] != 82
  {
    var n := |recs| - 1;
    if recs[n][4] == 82 {
      k := n;
    } else {
      k := LastWkmgIs(recs[..n]);
    }
  }

  // Whether a file of this kind may hold the workload management record of the entry
  ghost predicate WkmgFits(kind: FileKind, recs: seq<seq<byte>>)
    requires forall k :: 0 <= k < |recs| ==> |recs[k]| >= HDR_SIZE
  {
    if LastWkmgConsolidated(recs) then kind.sorted || kind.recycled else !kind.sorted
  }

  // The verdict on every entry that can be read, by the types of its records (the byte at offset 4)
  lemma VerdictsAre(f: seq<byte>, p: nat, kind: FileKind)
    requires p <= |f| && ReadEntry(f, p, 0).Entry?
    ensures var recs := ReadEntry(f, p, 0).recs;
            var first, v := recs[0][4], VerifyPrimary(kind, recs);
            && (v == CannotBePrimary <==> first in {2, 4, 8})
            && (v == WrongKind <==> (first == 82 && !WkmgFits(kind, recs)) || (first == 144 && !kind.sorted))
            && (v == Valid <==>
                  || (first == 1 && forall k :: 0 <= k < |recs| ==> recs[k][4] in {1, 2, 4, 8})
                  || first in {64, 65, 128, 129}
                  || (|recs| == 1 && (first in {10, 12, 16} || (first == 82 && WkmgFits(kind, recs)) || (first == 144 && kind.sorted))))
  {
    hide ReadEntry;
    var recs := ReadEntry(f, p, 0).recs;
    FirstLinked(f, p);
    KindsRead(f, p);
    if recs[0][4] == 82 {
      var k := LastWkmgIs(recs);
      ConsolidatedIs(recs, k);
    }
  }

  lemma ConsolidatedIs(recs: seq<seq<byte>>, k: nat)
    requires forall k :: 0 <= k < |recs| ==> |recs[k]| >= HDR_SIZE
    requires k < |recs| && recs[k][4] == 82 && forall j :: k < j < |recs| ==> recs[j][4] != 82
    ensures LastWkmgConsolidated(recs) <==> Consolidated(recs[k])
  {
    if LastWkmgConsolidated(recs) {
      forall i | 0 <= i < |recs| && recs[i][4] == 82 && forall j :: i < j < |recs| ==> recs[j][4] != 82
        ensures i == k
      {
        assert recs[k][4] == 82;
      }
    }
  }

  lemma KindsRead(f: seq<byte>, p: nat)
    requires p <= |f| && ReadEntry(f, p, 0).Entry?
    ensures forall r :: r in ReadEntry(f, p, 0).recs ==>
              |r| >= HDR_SIZE && r[4] in {1, 2, 4, 8, 10, 12, 16, 82, 144, 64, 65, 128, 129}
  {
    hide ReadEntry;
  }

  // ---- Entries as they are written ----

  lemma MarkedType(rec: seq<byte>, more: bool)
    requires |rec| >= HDR_SIZE
    ensures |Marked(rec, more)| >= HDR_SIZE && Marked(rec, more)[4] == rec[4]
  {
  }

  // An entry written by writeacctent and read back cannot start with its first record if and only if it has a linked record
  // but neither a base record nor an end of job.
  lemma WrittenVerdict(slots: Slots, f: seq<byte>, p: nat, kind: FileKind)
    requires Writable(slots) && FitsBuffer(slots)
    requires p + |EntryBytes(slots)| <= |f| && f[p..p + |EntryBytes(slots)|] == EntryBytes(slots)
    ensures ReadEntry(f, p, 0).Entry? && ReadEntry(f, p, 0).next == p + |EntryBytes(slots)|
    ensures VerifyPrimary(kind, ReadEntry(f, p, 0).recs) == CannotBePrimary <==>
            && KERNEL_CSA !in slots && KERNEL_EOJ !in slots
            && (KERNEL_MEM in slots || KERNEL_IO in slots || KERNEL_DELAY in slots)
  {
    hide WellFormed, Present, ReadEntry, VerifyPrimary, Chain, Flat, Marked, WkmgFits;
    var recs := Present(slots, WRITE_ORDER);
    FirstRecord(slots);
    PresentWellFormed(slots, WRITE_ORDER);
    ReadChain(f, p, recs, 0);
    VerdictsAre(f, p, kind);
    MarkedType(recs[0], 0 < |recs| - 1);
  }

  // A start of job with a memory record: the memory record is written first, and csaverify does not take the entry.
  lemma SojBehindMem(kind: FileKind)
    ensures var slots := map[KERNEL_SOJ := Blank(KERNEL_SOJ), KERNEL_MEM := Blank(KERNEL_MEM)];
            var f := EntryBytes(slots);
            && Present(slots, WRITE_ORDER) == [Blank(KERNEL_MEM), Blank(KERNEL_SOJ)]
            && Writable(slots) && FitsBuffer(slots)
            && ReadEntry(f, 0, 0).Entry? && VerifyPrimary(kind, ReadEntry(f, 0, 0).recs) == CannotBePrimary
  {
    hide WellFormed, Present, ReadEntry, VerifyPrimary, Chain, Flat, Decode;
    var slots := map[KERNEL_SOJ := Blank(KERNEL_SOJ), KERNEL_MEM := Blank(KERNEL_MEM)];
    BlankWellFormed(KERNEL_SOJ);
    BlankWellFormed(KERNEL_MEM);
    OrderWritten(slots);
    var recs := [Blank(KERNEL_MEM), Blank(KERNEL_SOJ)];
    ChainStep(recs);
    ChainStep(recs[1..]);
    var f := EntryBytes(slots);
    assert Present(slots, WRITE_ORDER) == recs && recs[1..] == [Blank(KERNEL_SOJ)];
    assert |f| == SIZE_MEM + SIZE_SOJ;
    assert f[0..0 + |f|] == f;
    WrittenVerdict(slots, f, 0, kind);
  }

  // ---- A damaged file ----

  const SOJ: seq<byte> := Blank(KERNEL_SOJ)

  // Two sound start-of-job records with four zero bytes between them
  function DamagedFile(): seq<byte> {
    SOJ + Zeros(4) + SOJ
  }

  lemma SojBytes()
    ensures |SOJ| == SIZE_SOJ && SOJ[..HDR_SIZE] == [0x4A, 0x31, 0, 12, 10, 0, 40, 0]
    ensures forall k :: HDR_SIZE <= k < SIZE_SOJ ==> SOJ[k] == 0
  {
  }

  // A start-of-job record that the entry checks pass is acceptable wherever it stands.
  lemma SojAcceptable(f: seq<byte>, p: nat, kind: FileKind, judge: Judge)
    requires p + SIZE_SOJ <= |f| && f[p..p + SIZE_SOJ] == SOJ && judge([SOJ]) == NoError
    ensures Acceptable(f, p, p + SIZE_SOJ, kind, judge)
  {
    hide ConvertPacct;
    SojBytes();
    assert f[p..p + HDR_SIZE] == f[p..p + SIZE_SOJ][..HDR_SIZE] == SOJ[..HDR_SIZE];
    assert ReadRecord(f, p, ACCTENTSIZ) == Record(SOJ, SIZE_SOJ);
  }

  lemma DamagedBytes()
    ensures var f := DamagedFile();
            && |f| == 84 && f[0..40] == SOJ && f[44..84] == SOJ && f[40] == 0
            && forall k :: 0 <= k < 84 ==> (f[k] == 0x4A <==> k == 0 || k == 44)
  {
    SojBytes();
    var f := DamagedFile();
    forall k | 0 <= k < 84
      ensures f[k] == 0x4A <==> k == 0 || k == 44
    {
      assert f[k] == if k < 40 then SOJ[k] else if k < 44 then 0 else SOJ[k - 44];
      assert forall i :: 0 <= i < HDR_SIZE ==> SOJ[i] == SOJ[..HDR_SIZE][i];
    }
  }

  lemma DamagedHeader(q: nat)
    requires q < 84
    ensures PrimaryAt(DamagedFile(), q) <==> q == 0 || q == 44
  {
    hide DamagedFile, PrimaryAt;
    DamagedBytes();
    SojBytes();
    var f := DamagedFile();
    HeadersAre(f, q);
    if q == 0 || q == 44 {
      assert f[q..q + HDR_SIZE] == f[q..q + 40][..HDR_SIZE] == SOJ[..HDR_SIZE];
    } else if q + HDR_SIZE <= |f| {
      assert f[q..q + HDR_SIZE][..3][0] == f[q];
    }
  }

  lemma DamagedUnrecognised(kind: FileKind, judge: Judge)
    ensures |DamagedFile()| == 84 && Unrecognised(DamagedFile(), 40, kind, judge)
  {
    hide DamagedFile, ConvertPacct;
    DamagedBytes();
  }

  // Only the four bytes are reported, and csaedit keeps both records.
  lemma DamagedFileIsRepaired(kind: FileKind, judge: Judge)
    requires judge([SOJ]) == NoError
    ensures var ranges := Run(DamagedFile(), START, kind, judge).ranges;
            ranges == [Range(40, 4)] && Edit(DamagedFile(), ranges, 0, []) == Edited(SOJ + SOJ)
  {
    hide Run, DamagedFile, Acceptable, Unrecognised, PrimaryAt;
    var f := DamagedFile();
    DamagedBytes();
    SojAcceptable(f, 0, kind, judge);
    SojAcceptable(f, 44, kind, judge);
    forall q: nat | q < 84
      ensures PrimaryAt(f, q) <==> q == 0 || q == 44
    {
      DamagedHeader(q);
    }
    DamagedUnrecognised(kind, judge);
    DamageIsCutOut(f, [Tile(0, 40, true)], 40, 44, [Tile(44, 84, true)], kind, judge);
    assert [] + f[0..40] == SOJ && f[44..] == SOJ;
  }
}
