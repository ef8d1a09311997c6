// An accounting file opened as a stream: raw reads, seeks and writes, and the record readers on top of them.

module AcctFile {
  import opened Basics
  import opened AcctHeader
  import opened AcctReader
  import opened AcctBackward

  // What is left of a read after `recs` were already taken.
  function Prepend(recs: seq<seq<byte>>, r: EntResult): EntResult {
    match r
    case Entry(rest, next) => Entry(recs + rest, next)
    case other => other
  }

  lemma PrependTwice(recs: seq<seq<byte>>, image: seq<byte>, r: EntResult)
    ensures Prepend(recs, Prepend([image], r)) == Prepend(recs + [image], r)
  {
    if r.Entry? {
      assert recs + ([image] + r.recs) == (recs + [image]) + r.recs;
    }
  }

  function PrependBack(recs: seq<seq<byte>>, r: BackResult): BackResult {
    match r
    case BackEntry(rest, pos) => BackEntry(recs + rest, pos)
    case other => other
  }

  lemma PrependBackTwice(recs: seq<seq<byte>>, image: seq<byte>, r: BackResult)
    ensures PrependBack(recs, PrependBack([image], r)) == PrependBack(recs + [image], r)
  {
    if r.BackEntry? {
      assert recs + ([image] + r.recs) == (recs + [image]) + r.recs;
    }
  }

  // One round of readacctent(BACKWARD)
  lemma ReadBackRound(f: seq<byte>, p: nat, nbytes: nat)
    requires p <= |f|
    ensures var q := StepbackFrom(f, p);
            q >= 0 ==> q + HDR_SIZE <= |f|
    ensures var q := StepbackFrom(f, p);
            ReadBack(f, p, nbytes)
            == if q < 0 then BackEntry([], 0)
               else if nbytes == ACCTENTSIZ then BackEntry([], q + HDR_SIZE)
               else match ReadRecord(f, q, ACCTENTSIZ - nbytes)
                    case NoRecord => BackEntry([], p)
                    case BadHeader => BackFailed(-1)
                    case ShortHeader => BackFailed(-2)
                    case ShortBody => BackFailed(-3)
                    case Record(image, used) =>
                      if More(f[q + 5]) && nbytes == 0 then BackFailed(-1)
                      else if !More(f[q + 5]) && nbytes != 0 then BackEntry([], q + used)
                      else if !PacctType(Decode(image).kind) then BackFailed(-1)
                      else PrependBack([image], ReadBack(f, Landing(StepbackFrom(f, q + used)), nbytes + |image|))
  {
    hide ReadRecord, PacctType, More, Decode;
  }

  class AcctFile {
    var data: seq<byte>
    var pos: nat

    // Positioned inside the file or at its end; a stream may also be positioned past it.
    ghost predicate Valid()
      reads this
    {
      pos <= |data|
    }

    // How many bytes a read of `size` bytes gets
    function Available(size: int): nat
      reads this
    {
      if size < 0 || pos > |data| then 0 else Min(size, |data| - pos)
    }

    constructor (contents: seq<byte>)
      ensures Valid() && data == contents && pos == 0
    {
      data, pos := contents, 0;
    }

    // readacct
    method ReadAcct(size: int) returns (buf: seq<byte>)
      modifies this`pos
      ensures |buf| == old(Available(size)) && pos == old(pos) + |buf|
      ensures buf == if old(Valid()) then data[old(pos)..pos] else []
      ensures old(Valid()) ==> Valid()
    {
      var n := Available(size);
      buf := if n == 0 then [] else data[pos..pos + n];
      pos := pos + n;
    }

    // seekacct(SEEK_SET)
    method SeekTo(n: nat)
      modifies this`pos
      ensures pos == n
    {
      pos := n;
    }

    // writeacct inside the file: overwrite from the current position, extending the file when needed
    method WriteAcct(buf: seq<byte>)
      requires Valid()
      modifies this
      ensures Valid() && pos == old(pos) + |buf|
      ensures data == old(data)[..old(pos)] + buf +
                      (if pos <= |old(data)| then old(data)[pos..] else [])
    {
      var tail := if pos + |buf| <= |data| then data[pos + |buf|..] else [];
      data := data[..pos] + buf + tail;
      pos := pos + |buf|;
    }

    // readpacct
    method ReadPacct(room: int) returns (r: RecResult)
      requires Valid()
      modifies this`pos
      ensures Valid()
      ensures r == ReadRecord(data, old(pos), room)
      ensures r.Record? ==> pos == old(pos) + r.consumed
    {
      hide ConvertPacct, ValidType, RevTab, Decode;
      if 0 <= room < HDR_SIZE {
        return BadHeader;
      }
      ghost var start := pos;
      var head := ReadAcct(HDR_SIZE);
      if |head| != HDR_SIZE {
        return if |head| == 0 then NoRecord else ShortHeader;
      }
      assert head == data[start..start + HDR_SIZE];
      var h := Decode(head);
      var len := Min(room, h.size) - HDR_SIZE;
      if h.magic != ACCT_MAGIC || !ValidType(h.kind) {
        return BadHeader;
      }
      if len <= 0 {
        return Record(head, HDR_SIZE);
      }
      var body := ReadAcct(len);
      if |body| != len {
        return ShortBody;
      }
      assert head + body == data[start..start + HDR_SIZE + len];
      if h.revision != RevTab(h.kind) {
        var c := ConvertPacct(head + body);
        return if c == [] then BadHeader else Record(c, HDR_SIZE + len);
      }
      return Record(head + body, HDR_SIZE + len);
    }

    // readacctent(FORWARD)
    method ReadAcctEnt() returns (r: EntResult)
      requires Valid()
      modifies this`pos
      ensures Valid()
      ensures r == ReadEntry(data, old(pos), 0)
      ensures r.Entry? ==> pos == r.next
    {
      hide ReadRecord, PacctType, More, Decode;
      var recs: seq<seq<byte>> := [];
      var nbytes: nat := 0;
      while true
        invariant Valid()
        invariant ReadEntry(data, old(pos), 0) == Prepend(recs, ReadEntry(data, pos, nbytes))
        decreases |data| - pos
      {
        var rec := ReadPacct(ACCTENTSIZ - nbytes);
        match rec
        case NoRecord => return AtEnd;
        case BadHeader => return Failed(-1);
        case ShortHeader => return Failed(-2);
        case ShortBody => return Failed(-3);
        case Record(image, _) =>
          if !PacctType(Decode(image).kind) {
            return Failed(-1);
          }
          nbytes := nbytes + |image|;
          if !More(Decode(image).flag) {
            return Entry(recs + [image], pos);
          }
          PrependTwice(recs, image, ReadEntry(data, pos, nbytes));
          recs := recs + [image];
      }
    }

    // stepback: back to the nearest header, or to the start of the file when there is none
    method Stepback() returns (flag: int)
      requires Valid()
      modifies this`pos
      ensures Valid()
      ensures var q := StepbackFrom(data, old(pos));
              if q < 0 then flag == -1 && pos == 0 else flag == data[q + 5] && pos == q
    {
      hide Decode, RevTab, ValidType;
      while true
        invariant Valid() && pos <= old(pos)
        invariant StepbackFrom(data, pos) == StepbackFrom(data, old(pos))
        decreases pos
      {
        if pos < HDR_SIZE {
          SeekTo(0);
          return -1;
        }
        SeekTo(pos - HDR_SIZE);
        var head := ReadAcct(HDR_SIZE);
        SeekTo(pos - HDR_SIZE);
        var h := Decode(head);
        if h.magic == ACCT_MAGIC && ValidType(h.kind) && OTFC_BASE_REV <= h.revision <= RevTab(h.kind)
           && HDR_SIZE <= h.size <= SIZE_CFG {
          return head[5];
        }
      }
    }

    // readacctent(BACKWARD)
    method ReadAcctEntBackward() returns (r: BackResult)
      requires Valid()
      modifies this`pos
      ensures r == ReadBack(data, old(pos), 0)
      ensures r.BackEntry? ==> pos == r.pos
    {
      hide ReadRecord, StepbackHit, PacctType, More, Decode, StepbackFrom, ReadBack;
      var recs: seq<seq<byte>> := [];
      var nbytes: nat := 0;
      while true
        invariant Valid()
        invariant ReadBack(data, old(pos), 0) == PrependBack(recs, ReadBack(data, pos, nbytes))
        decreases if nbytes <= ACCTENTSIZ then ACCTENTSIZ + 1 - nbytes else 0, pos
      {
        ReadBackRound(data, pos, nbytes);
        var flag := Stepback();
        ghost var q := pos;
        if flag < 0 {
          return BackEntry(recs, 0);
        }
        if nbytes == ACCTENTSIZ {
          SeekTo(pos + HDR_SIZE);
          return BackEntry(recs, pos);
        }
        var rec := ReadPacct(ACCTENTSIZ - nbytes);
        if !rec.Record? {
          return BackFailed(if rec.BadHeader? then -1 else if rec.ShortHeader? then -2 else -3);
        }
        if More(flag) {
          if nbytes == 0 {
            return BackFailed(-1);
          }
        } else if nbytes != 0 {
          return BackEntry(recs, pos);
        }
        if !PacctType(Decode(rec.image).kind) {
          return BackFailed(-1);
        }
        if nbytes > ACCTENTSIZ {
          OverrunReadsHeaders(data, q, nbytes);
        }
        var again := Stepback();
        PrependBackTwice(recs, rec.image, ReadBack(data, pos, nbytes + |rec.image|));
        nbytes := nbytes + |rec.image|;
        recs := recs + [rec.image];
      }
    }
  }
}
