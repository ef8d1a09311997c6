// csaverify as it runs: globals moved step by step over an open accounting file.

module Csaverify {
  import opened Basics
  import opened AcctHeader
  import opened AcctReader
  import opened AcctFile
  import opened VerifySpec
  import VerifyLaws

  // What prc_pacct makes of a file as a whole.
  datatype Report =
    | NoFirstRecord                          // the first record cannot be read
    | BadStart(first: nat)                   // the file does not start with a primary header; the first one, or |f|
    | Scanned(kind: FileKind, scan: Scan)

  // The first record is a boot configuration record; ac_event is the byte at offset 24, AC_CONFCHG_BOOT is 0
  predicate Sorted(f: seq<byte>)
    requires PrimaryAt(f, 0) && (Decode(f[0..HDR_SIZE]).kind == KERNEL_CFG ==> |f| >= SIZE_CFG)
  {
    Decode(f[0..HDR_SIZE]).kind == KERNEL_CFG && f[24] == 0
  }

  // How a run of the program ends; the ranges are then in the offset file.
  datatype Exit = FirstUnreadable | StartsAt(first: nat) | Ran

  function Verify(f: seq<byte>, recycled: bool, judge: Judge): Report {
    if |f| < HDR_SIZE then NoFirstRecord
    else if !PrimaryAt(f, 0) then BadStart(FirstPrimary(f, 1))
    else if Decode(f[0..HDR_SIZE]).kind == KERNEL_CFG && |f| < SIZE_CFG then NoFirstRecord
    else
      var kind := FileKind(Sorted(f), recycled);
      Scanned(kind, Run(f, START, kind, judge))
  }

  class Verifier {
    const file: AcctFile
    const recycled: bool
    const judge: Judge
    var sorted: bool            // is_spacct
    var currLoc: nat
    var prevLoc: nat
    var prevprevLoc: nat
    var oldLoc: int             // location of the range written last, -1 before the first
    var offsets: seq<Range>     // lines of the offset file
    var nbad: nat

    constructor (file: AcctFile, recycled: bool, judge: Judge)
      ensures this.file == file && this.recycled == recycled && this.judge == judge
      ensures !sorted && prevLoc == prevprevLoc == nbad == 0 && offsets == [] && oldLoc == -1
    {
      this.file, this.recycled, this.judge := file, recycled, judge;
      sorted, currLoc, prevLoc, prevprevLoc, oldLoc, offsets, nbad := false, 0, 0, 0, -1, [], 0;
    }

    ghost predicate Valid()
      reads this, file
    {
      && file.Valid()
      && oldLoc == (if offsets == [] then -1 else offsets[|offsets| - 1].loc)
      && (nbad > 0 <==> offsets != [])
    }

    function Kind(): FileKind
      reads this
    {
      FileKind(sorted, recycled)
    }

    // err_offset, together with the count invalid_record keeps
    method ErrOffset(loc: nat, len: int)
      requires Valid()
      modifies this`offsets, this`oldLoc, this`nbad
      ensures Valid()
      ensures offsets == Emit(old(offsets), Range(loc, len)) && nbad == old(nbad) + 1
    {
      if loc == oldLoc {
        offsets := offsets[..|offsets| - 1];
      }
      offsets := offsets + [Range(loc, len)];
      oldLoc := loc;
      nbad := nbad + 1;
    }

    // find_primary_hdr: byte by byte from the current position; stops right after the header it finds
    method FindPrimaryHdr() returns (found: bool)
      requires file.Valid()
      modifies file`pos
      ensures file.Valid()
      ensures found <==> FirstPrimary(file.data, old(file.pos)) < |file.data|
      ensures found ==> file.pos == FirstPrimary(file.data, old(file.pos)) + HDR_SIZE
    {
      hide PrimaryHeader, Decode;
      ghost var f, start := file.data, file.pos;
      var head := file.ReadAcct(HDR_SIZE);
      while |head| == HDR_SIZE
        invariant file.Valid() && start <= file.pos - |head|
        invariant |head| <= HDR_SIZE && head == f[file.pos - |head|..file.pos]
        invariant |head| < HDR_SIZE ==> file.pos == |f|
        invariant FirstPrimary(f, start) == FirstPrimary(f, file.pos - |head|)
        decreases |f| - file.pos, |head|
      {
        if PrimaryHeader(Decode(head)) {
          return true;
        }
        file.SeekTo(file.pos - (HDR_SIZE - 1));
        head := file.ReadAcct(HDR_SIZE);
      }
      NoHeaderFits(f, file.pos - |head|);
      return false;
    }

    // check_last_read_rec; quit is ERR_QUIT
    method CheckLastReadRec() returns (quit: bool)
      requires Valid() && prevprevLoc <= prevLoc < |file.data|
      modifies this`prevLoc, this`offsets, this`oldLoc, this`nbad, file`pos
      ensures Valid()
      ensures var step := Resync(file.data, old(prevprevLoc), old(prevLoc));
              && (quit <==> step.Quit?)
              && offsets == Emit(old(offsets), step.bad)
              && (!quit ==> file.pos == step.next)
              && prevLoc == if step.Retract? then old(prevprevLoc) else old(prevLoc)
    {
      hide PrimaryHeader, Decode, Emit;
      file.SeekTo(prevprevLoc + 1);
      var found := FindPrimaryHdr();
      if found {
        var offset := file.pos - HDR_SIZE;
        file.SeekTo(offset);
        if offset >= prevLoc {
          ErrOffset(prevLoc, offset - prevLoc);
        } else {
          prevLoc := prevprevLoc;
          ErrOffset(prevprevLoc, offset - prevprevLoc);
        }
        return false;
      }
      ErrOffset(prevLoc, END_OF_FILE);
      return true;
    }

    // The part of verify_primary that reports and repositions, for an entry [prevLoc, currLoc)
    method HandlePrimary(recs: seq<seq<byte>>) returns (quit: bool)
      requires Valid() && prevprevLoc <= prevLoc < currLoc == file.pos <= |file.data|
      requires recs != [] && forall k :: 0 <= k < |recs| ==> |recs[k]| >= HDR_SIZE
      modifies this`prevLoc, this`offsets, this`oldLoc, this`nbad, file`pos
      ensures Valid()
      ensures var f := file.data;
              match VerifyPrimary(Kind(), recs)
              case Valid => !quit && file.pos == currLoc && offsets == old(offsets) && prevLoc == old(prevLoc)
              case CannotBePrimary =>
                var step := Resync(f, old(prevprevLoc), old(prevLoc));
                && (quit <==> step.Quit?) && offsets == Emit(old(offsets), step.bad) && (!quit ==> file.pos == step.next)
                && prevLoc == if step.Retract? then old(prevprevLoc) else old(prevLoc)
              case IllegallyLinked =>
                var h := FirstPrimary(f, old(prevLoc) + 1);
                && (quit <==> h == |f|) && prevLoc == old(prevLoc) && (!quit ==> file.pos == h)
                && offsets == Emit(old(offsets), Range(old(prevLoc), if quit then END_OF_FILE else h - old(prevLoc)))
              case WrongKind =>
                !quit && file.pos == currLoc && prevLoc == old(prevLoc)
                && offsets == Emit(old(offsets), Range(old(prevLoc), currLoc - old(prevLoc)))
    {
      hide VerifyPrimary, FirstPrimary, PrimaryAt, PrimaryHeader, Decode, Emit, Resync;
      quit := false;
      match VerifyPrimary(Kind(), recs)
      case Valid =>
      case CannotBePrimary => quit := CheckLastReadRec();
      case IllegallyLinked =>
        file.SeekTo(prevLoc + 1);
        var found := FindPrimaryHdr();
        if found {
          var offset := file.pos - HDR_SIZE;
          file.SeekTo(offset);
          ErrOffset(prevLoc, offset - prevLoc);
        } else {
          ErrOffset(prevLoc, END_OF_FILE);
          quit := true;
        }
      case WrongKind => ErrOffset(prevLoc, currLoc - prevLoc);
    }

    // What the loop does with an entry that was read whole
    method HandleEntry(recs: seq<seq<byte>>) returns (quit: bool)
      requires Valid() && prevprevLoc <= prevLoc < currLoc == file.pos <= |file.data|
      requires recs != [] && forall k :: 0 <= k < |recs| ==> |recs[k]| >= HDR_SIZE
      requires ReadEntry(file.data, prevLoc, 0) == Entry(recs, currLoc)
      modifies this`prevLoc, this`offsets, this`oldLoc, this`nbad, file`pos
      ensures Valid()
      ensures var step := NextStep(file.data, old(prevprevLoc), old(prevLoc), Kind(), judge);
              && !step.Stop? && (quit <==> step.Quit?)
              && offsets == (if step.Accept? then old(offsets) else Emit(old(offsets), step.bad))
              && (!quit ==> file.pos == step.next)
              && prevLoc == if step.Retract? then old(prevprevLoc) else old(prevLoc)
    {
      hide ReadEntry, VerifyPrimary, Emit, FirstPrimary, Resync, PrimaryAt;
      quit := false;
      match judge(recs)
      case HeaderError => quit := CheckLastReadRec();
      case OtherError => ErrOffset(prevLoc, currLoc - prevLoc);
      case NoError => quit := HandlePrimary(recs);
    }

    // One pass of the main loop: read an entry at prevLoc, judge it, report, and move on.
    method Pass() returns (more: bool)
      requires Valid() && prevprevLoc <= prevLoc == file.pos
      modifies this`currLoc, this`prevLoc, this`prevprevLoc, this`offsets, this`oldLoc, this`nbad, file`pos
      ensures Valid()
      ensures var step := NextStep(file.data, old(prevprevLoc), old(prevLoc), Kind(), judge);
              && more == (!step.Stop? && !step.Quit?)
              && (step.Stop? ==> offsets == old(offsets) && prevLoc == old(prevLoc))
              && (step.Quit? ==> offsets == Emit(old(offsets), step.bad) && prevLoc == old(prevLoc))
              && (more ==>
                    && prevLoc == file.pos == step.next
                    && prevprevLoc == (if step.Retract? then old(prevprevLoc) else old(prevLoc))
                    && offsets == (if step.Accept? then old(offsets) else Emit(old(offsets), step.bad)))
    {
      hide ReadEntry, VerifyPrimary, Emit, FirstPrimary, Resync, PrimaryAt;
      var r := file.ReadAcctEnt();
      if r.AtEnd? {
        return false;
      }
      if r.Failed? && r.code != -1 {
        ErrOffset(prevLoc, END_OF_FILE);
        return false;
      }
      var quit := false;
      if r.Failed? {
        assert Reads(file.data, prevLoc, Kind(), judge).NeedsResync?;
        quit := CheckLastReadRec();
      } else {
        currLoc := file.pos;
        quit := HandleEntry(r.recs);
      }
      if quit {
        return false;
      }
      prevprevLoc := prevLoc;
      prevLoc := file.pos;
      return true;
    }

    // prc_pacct; the program exits with status 0 exactly when nbad is 0
    method PrcPacct() returns (r: Exit)
      requires Valid() && file.pos == 0
      requires !sorted && prevLoc == prevprevLoc == 0 && offsets == []
      modifies this, file`pos
      ensures match Verify(file.data, recycled, judge)
              case NoFirstRecord => r == FirstUnreadable && offsets == []
              case BadStart(first) => r == StartsAt(first) && offsets == []
              case Scanned(kind, scan) => r == Ran && Kind() == kind && offsets == scan.ranges
      ensures r == Ran ==> exists tiles, p :: VerifyLaws.Explains(file.data, tiles, p, Kind(), judge)
                                             && offsets == VerifyLaws.Offsets(file.data, tiles, p)
      ensures nbad == 0 <==> r.Ran? && offsets == []
    {
      hide Run, FirstPrimary, PrimaryHeader, Decode, NextStep, Emit, VerifyLaws.Explains, VerifyLaws.Offsets;
      var head := file.ReadAcct(HDR_SIZE);
      if |head| != HDR_SIZE {
        nbad := nbad + 1;
        return FirstUnreadable;
      }
      if !PrimaryHeader(Decode(head)) {
        file.SeekTo(1);
        var found := FindPrimaryHdr();
        nbad := nbad + 1;
        return StartsAt(if found then file.pos - HDR_SIZE else |file.data|);
      }
      if Decode(head).kind == KERNEL_CFG {
        var body := file.ReadAcct(SIZE_CFG - HDR_SIZE);
        if |body| != SIZE_CFG - HDR_SIZE {
          nbad := nbad + 1;
          return FirstUnreadable;
        }
        sorted := body[24 - HDR_SIZE] == 0;
      }
      file.SeekTo(0);

      ghost var f, kind, scan := file.data, Kind(), START;
      var more := true;
      while more
        invariant Valid() && file.data == f && Kind() == kind
        invariant more ==> file.pos == prevLoc && prevLoc == scan.prev && prevprevLoc == scan.prevprev
        invariant more ==> offsets == scan.ranges && InFile(f, scan)
        invariant more ==> Run(f, START, kind, judge) == Run(f, scan, kind, judge)
        invariant !more ==> offsets == Run(f, START, kind, judge).ranges
        decreases if more then 1 else 0, |f| - scan.prevprev, if more then Rank(f, scan) else 0
      {
        ghost var step := NextStep(f, prevprevLoc, prevLoc, kind, judge);
        more := Pass();
        RunStep(f, scan, kind, judge);
        if more {
          StepDescends(f, scan, kind, judge);
          scan := Advance(scan, step);
        }
      }
      DivisionThere(f, kind, judge);
      return Ran;
    }
  }

  lemma DivisionThere(f: seq<byte>, kind: FileKind, judge: Judge)
    ensures exists tiles, p :: VerifyLaws.Explains(f, tiles, p, kind, judge)
                              && Run(f, START, kind, judge).ranges == VerifyLaws.Offsets(f, tiles, p)
  {
    hide Run, VerifyLaws.Explains;
    VerifyLaws.OffsetFileIs(f, Run(f, START, kind, judge).tiles, Run(f, START, kind, judge).prev, kind, judge);
  }

  // One unfolding of Run.
  lemma RunStep(f: seq<byte>, s: Scan, kind: FileKind, judge: Judge)
    requires InFile(f, s)
    ensures var step := NextStep(f, s.prevprev, s.prev, kind, judge);
            && (step.Stop? ==> Run(f, s, kind, judge) == s)
            && (step.Quit? ==> Run(f, s, kind, judge) == s.(ranges := Emit(s.ranges, step.bad)))
            && (!step.Stop? && !step.Quit? ==>
                  InFile(f, Advance(s, step)) && Run(f, s, kind, judge) == Run(f, Advance(s, step), kind, judge))
  {
    hide NextStep, Emit;
    if !NextStep(f, s.prevprev, s.prev, kind, judge).Stop? && !NextStep(f, s.prevprev, s.prev, kind, judge).Quit? {
      StepDescends(f, s, kind, judge);
    }
  }

  lemma NoHeaderFits(f: seq<byte>, p: nat)
    requires p <= |f| < p + HDR_SIZE
    ensures FirstPrimary(f, p) == |f|
  {
  }
}
