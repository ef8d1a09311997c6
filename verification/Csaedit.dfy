// csaedit deleting the ranges of an offset file, copying through one buffer.

module Csaedit {
  import opened Basics
  import opened AcctHeader
  import opened AcctReader
  import opened AcctFile
  import opened VerifySpec
  import opened EditSpec

  // Copy `amount` bytes from the current position of src to the end of dst, one buffer at a time.
  method CopyBytes(src: AcctFile, dst: AcctFile, amount: int) returns (ok: bool)
    requires src != dst && dst.pos == |dst.data|
    modifies src`pos, dst
    ensures dst.pos == |dst.data|
    ensures ok <==> amount <= 0 || old(src.pos) + amount <= |src.data|
    ensures ok ==> src.pos == old(src.pos) + (if amount < 0 then 0 else amount)
    ensures ok ==> dst.data == old(dst.data) + if amount > 0 then src.data[old(src.pos)..src.pos] else []
  {
    if amount <= 0 {
      return true;
    }
    if src.pos > |src.data| {
      var none := src.ReadAcct(Min(amount, ACCTENTSIZ));
      return false;
    }
    var left := amount;
    assert src.data[old(src.pos)..src.pos] == [];
    while left > 0
      invariant src.Valid() && dst.pos == |dst.data|
      invariant 0 <= left <= amount
      invariant src.pos - old(src.pos) == amount - left
      invariant dst.data == old(dst.data) + src.data[old(src.pos)..src.pos]
    {
      var size := Min(left, ACCTENTSIZ);
      var buf := src.ReadAcct(size);
      if |buf| != size {
        return false;
      }
      dst.WriteAcct(buf);
      left := left - size;
    }
    return true;
  }

  // delete_invalid
  method DeleteInvalid(src: AcctFile, dst: AcctFile, ranges: seq<Range>) returns (r: EditResult)
    requires src != dst && src.pos == 0 && dst.pos == 0 && dst.data == []
    modifies src`pos, dst
    ensures r == Edit(src.data, ranges, 0, [])
    ensures r.Edited? ==> dst.data == r.out
  {
    hide Edit;
    ghost var f := src.data;
    var k := 0;
    var curr: nat := 0;
    while k < |ranges|
      invariant k <= |ranges| && src.data == f && src.pos == curr && dst.pos == |dst.data|
      invariant Edit(f, ranges, 0, []) == Edit(f, ranges[k..], curr, dst.data)
    {
      var next := ranges[k];
      EditUnfold(f, next, ranges[k + 1..], curr, dst.data);
      assert ranges[k..] == [next] + ranges[k + 1..];
      if next.len <= 0 && next.len != END_OF_FILE {
        return Aborted(IllegalValue);
      }
      if next.loc < curr {
        return Aborted(OutOfSequence);
      }
      var ok := CopyBytes(src, dst, next.loc - curr);
      if !ok {
        return Aborted(CannotRead);
      }
      if next.len == END_OF_FILE {
        return Edited(dst.data);
      }
      src.SeekTo(src.pos + next.len);
      curr := src.pos;
      k := k + 1;
    }
    assert ranges[k..] == [];
    EditNothing(f, curr, dst.data);
    if curr == 0 {
      return Aborted(EmptyOffsets);
    }
    var ok := CopyBytes(src, dst, |src.data| - curr);
    return Edited(dst.data);
  }

  lemma EditUnfold(f: seq<byte>, r: Range, rest: seq<Range>, curr: nat, out: seq<byte>)
    ensures Edit(f, [r] + rest, curr, out) ==
            if r.len <= 0 && r.len != END_OF_FILE then Aborted(IllegalValue)
            else if r.loc < curr then Aborted(OutOfSequence)
            else if r.loc > curr && r.loc > |f| then Aborted(CannotRead)
            else
              var copied := out + if r.loc > curr then f[curr..r.loc] else [];
              if r.len == END_OF_FILE then Edited(copied) else Edit(f, rest, r.loc + r.len, copied)
  {
    assert ([r] + rest)[0] == r && ([r] + rest)[1..] == rest;
  }

  lemma EditNothing(f: seq<byte>, curr: nat, out: seq<byte>)
    ensures Edit(f, [], curr, out) ==
            if curr == 0 then Aborted(EmptyOffsets) else Edited(out + if curr <= |f| then f[curr..] else [])
  {
  }
}
