// What csaedit does with an offset file: which bytes of the input it keeps, and when it gives up.

module EditSpec {
  import opened Basics
  import opened VerifySpec

  datatype EditError = IllegalValue | OutOfSequence | CannotRead | EmptyOffsets
  datatype EditResult = Edited(out: seq<byte>) | Aborted(error: EditError)

  // delete_invalid, with the input positioned at curr and `out` already written
  function Edit(f: seq<byte>, ranges: seq<Range>, curr: nat, out: seq<byte>): EditResult
    decreases |ranges|
  {
    if ranges == [] then
      if curr == 0 then Aborted(EmptyOffsets)
      else Edited(out + if curr <= |f| then f[curr..] else [])
    else
      var r := ranges[0];
      if r.len <= 0 && r.len != END_OF_FILE then Aborted(IllegalValue)
      else if r.loc < curr then Aborted(OutOfSequence)
      else if r.loc > curr && r.loc > |f| then Aborted(CannotRead)
      else
        var copied := out + if r.loc > curr then f[curr..r.loc] else [];
        if r.len == END_OF_FILE then Edited(copied) else Edit(f, ranges[1..], r.loc + r.len, copied)
  }

  // Positive ranges in increasing order, apart from one another, starting in the file; only the last may be open-ended.
  ghost predicate Orderly(ranges: seq<Range>, n: nat) {
    && (forall i :: 0 <= i < |ranges| ==> ranges[i].loc <= n)
    && (forall i :: 0 <= i < |ranges| ==> ranges[i].len > 0 || (ranges[i].len == END_OF_FILE && i == |ranges| - 1))
    && (forall i, j :: 0 <= i < j < |ranges| ==> ranges[i].loc + ranges[i].len <= ranges[j].loc)
  }

  predicate CoveredBy(r: Range, i: nat) {
    r.loc <= i && (r.len == END_OF_FILE || i < r.loc + r.len)
  }

  predicate Covered(ranges: seq<Range>, i: nat) {
    exists r :: r in ranges && CoveredBy(r, i)
  }

  // The bytes from i on that no range covers, in order.
  function Kept(f: seq<byte>, ranges: seq<Range>, i: nat): seq<byte>
    requires i <= |f|
    decreases |f| - i
  {
    if i == |f| then []
    else (if Covered(ranges, i) then [] else [f[i]]) + Kept(f, ranges, i + 1)
  }

  lemma {:induction false} KeptUncovered(f: seq<byte>, ranges: seq<Range>, lo: nat, hi: nat)
    requires lo <= hi <= |f|
    requires forall i :: lo <= i < hi ==> !Covered(ranges, i)
    ensures Kept(f, ranges, lo) == f[lo..hi] + Kept(f, ranges, hi)
    decreases hi - lo
  {
    hide Covered, Kept;
    var rest := Kept(f, ranges, hi);
    if lo < hi {
      KeptUncovered(f, ranges, lo + 1, hi);
      KeptStep(f, ranges, lo);
      assert f[lo..hi] == [f[lo]] + f[lo + 1..hi];
      assert [f[lo]] + (f[lo + 1..hi] + rest) == ([f[lo]] + f[lo + 1..hi]) + rest;
    } else {
      assert f[lo..hi] + rest == rest;
    }
  }

  lemma KeptStep(f: seq<byte>, ranges: seq<Range>, i: nat)
    requires i < |f|
    ensures Kept(f, ranges, i) == (if Covered(ranges, i) then [] else [f[i]]) + Kept(f, ranges, i + 1)
  {
    hide Covered;
  }

  lemma {:induction false} KeptCovered(f: seq<byte>, ranges: seq<Range>, lo: nat, hi: nat)
    requires lo <= hi <= |f|
    requires forall i :: lo <= i < hi ==> Covered(ranges, i)
    ensures Kept(f, ranges, lo) == Kept(f, ranges, hi)
    decreases hi - lo
  {
    hide Covered;
    if lo < hi {
      KeptCovered(f, ranges, lo + 1, hi);
    }
  }

  // On an orderly offset file the editor never gives up, and writes exactly the bytes that no range covers.
  lemma EditKeepsUncovered(f: seq<byte>, ranges: seq<Range>)
    requires Orderly(ranges, |f|) && ranges != []
    ensures Edit(f, ranges, 0, []) == Edited(Kept(f, ranges, 0))
  {
    EditFrom(f, ranges, 0, 0, []);
    assert ranges[0..] == ranges;
  }

  // Where the editor stands before range k: everything before curr has been dealt with.
  ghost predicate Standing(ranges: seq<Range>, k: nat, curr: nat) {
    && k <= |ranges|
    && (forall j :: 0 <= j < k ==> ranges[j].len > 0 && ranges[j].loc + ranges[j].len <= curr)
    && (if k == 0 then curr == 0 else curr == ranges[k - 1].loc + ranges[k - 1].len)
  }

  // What Kept holds from i on, also past the end of the file.
  function KeptFrom(f: seq<byte>, ranges: seq<Range>, i: nat): seq<byte> {
    if i <= |f| then Kept(f, ranges, i) else []
  }

  // Where range k leaves off.
  function After(r: Range, n: nat): nat {
    if r.len == END_OF_FILE then n else if r.len < 0 then r.loc else r.loc + r.len
  }

  // Kept steps over a range exactly as the editor does.
  lemma KeptRange(f: seq<byte>, ranges: seq<Range>, k: nat, curr: nat)
    requires Orderly(ranges, |f|) && Standing(ranges, k, curr) && k < |ranges|
    ensures curr <= ranges[k].loc <= |f|
    ensures KeptFrom(f, ranges, curr) == f[curr..ranges[k].loc] + KeptFrom(f, ranges, After(ranges[k], |f|))
  {
    var r := ranges[k];
    var after := After(r, |f|);
    var stop := if after <= |f| then after else |f|;
    GapUncovered(ranges, k, curr, |f|);
    KeptUncovered(f, ranges, curr, r.loc);
    forall i | r.loc <= i < stop
      ensures Covered(ranges, i)
    {
      assert r in ranges && CoveredBy(r, i);
    }
    KeptCovered(f, ranges, r.loc, stop);
  }

  lemma NothingAfterLast(f: seq<byte>, ranges: seq<Range>, curr: nat)
    requires Standing(ranges, |ranges|, curr) && curr <= |f|
    ensures Kept(f, ranges, curr) == f[curr..]
  {
    KeptUncovered(f, ranges, curr, |f|);
  }

  // One range that can be honoured.
  lemma EditOne(f: seq<byte>, r: Range, rest: seq<Range>, curr: nat, out: seq<byte>)
    requires curr <= r.loc <= |f| && (r.len > 0 || r.len == END_OF_FILE)
    ensures Edit(f, [r] + rest, curr, out) ==
            if r.len == END_OF_FILE then Edited(out + f[curr..r.loc])
            else Edit(f, rest, r.loc + r.len, out + f[curr..r.loc])
  {
    assert ([r] + rest)[0] == r && ([r] + rest)[1..] == rest;
    if r.loc == curr {
      assert out + f[curr..r.loc] == out + [] == out;
    }
  }

  lemma {:induction false} EditFrom(f: seq<byte>, ranges: seq<Range>, k: nat, curr: nat, out: seq<byte>)
    requires Orderly(ranges, |f|) && ranges != []
    requires Standing(ranges, k, curr)
    ensures Edit(f, ranges[k..], curr, out) == Edited(out + KeptFrom(f, ranges, curr))
    decreases |ranges| - k
  {
    hide Kept, Covered;
    if k == |ranges| {
      if curr <= |f| {
        NothingAfterLast(f, ranges, curr);
      }
    } else {
      EditFromRange(f, ranges, k, curr, out);
    }
  }

  lemma {:induction false} EditFromRange(f: seq<byte>, ranges: seq<Range>, k: nat, curr: nat, out: seq<byte>)
    requires Orderly(ranges, |f|)
    requires Standing(ranges, k, curr) && k < |ranges|
    ensures Edit(f, ranges[k..], curr, out) == Edited(out + KeptFrom(f, ranges, curr))
    decreases |ranges| - k, 0
  {
    hide Kept, Covered, Edit, KeptFrom;
    var r := ranges[k];
    KeptRange(f, ranges, k, curr);
    EditOne(f, r, ranges[k + 1..], curr, out);
    assert ranges[k..] == [r] + ranges[k + 1..];
    if r.len == END_OF_FILE {
      NothingLeft(f, ranges);
    } else {
      EditFrom(f, ranges, k + 1, r.loc + r.len, out + f[curr..r.loc]);
    }
    var rest := KeptFrom(f, ranges, After(r, |f|));
    assert (out + f[curr..r.loc]) + rest == out + (f[curr..r.loc] + rest);
  }

  lemma NothingLeft(f: seq<byte>, ranges: seq<Range>)
    ensures KeptFrom(f, ranges, |f|) == []
  {
  }

  // Nothing between curr and the start of range k is covered.
  lemma GapUncovered(ranges: seq<Range>, k: nat, curr: nat, n: nat)
    requires Orderly(ranges, n) && Standing(ranges, k, curr) && k < |ranges|
    ensures curr <= ranges[k].loc <= n
    ensures forall i: nat :: curr <= i < ranges[k].loc ==> !Covered(ranges, i)
  {
    forall i: nat, r | curr <= i < ranges[k].loc && r in ranges
      ensures !CoveredBy(r, i)
    {
      var j :| 0 <= j < |ranges| && ranges[j] == r;
      if j > k {
        assert ranges[k].loc + ranges[k].len <= ranges[j].loc;
      }
    }
  }

  // ---- Offset files that are refused ----

  // The first n ranges can be honoured, each behind the one before it.
  ghost predicate Honoured(f: seq<byte>, ranges: seq<Range>, n: nat) {
    && n <= |ranges|
    && forall i :: 0 <= i < n ==>
         && ranges[i].len > 0
         && (if i == 0 then true else ranges[i - 1].loc + ranges[i - 1].len <= ranges[i].loc)
         && (ranges[i].loc <= |f| || (i > 0 && ranges[i].loc == ranges[i - 1].loc + ranges[i - 1].len))
  }

  // Where the editor stands behind the first n ranges
  function Reached(ranges: seq<Range>, n: nat): int
    requires n <= |ranges|
  {
    if n == 0 then 0 else ranges[n - 1].loc + ranges[n - 1].len
  }

  // What the n-th range is refused for: a length that is neither positive nor the mark, a place already passed, or one
  // behind the end of the file; an empty offset file is refused as well.
  lemma {:induction false} RefusedFor(f: seq<byte>, ranges: seq<Range>, k: nat, n: nat, curr: nat, out: seq<byte>)
    requires Honoured(f, ranges, n) && k <= n < |ranges| && curr == Reached(ranges, k)
    requires var r := ranges[n]; (r.len <= 0 && r.len != END_OF_FILE) || r.loc < Reached(ranges, n) || (|f| < r.loc != Reached(ranges, n))
    ensures Edit(f, ranges[k..], curr, out) ==
            Aborted(if ranges[n].len <= 0 && ranges[n].len != END_OF_FILE then IllegalValue
                    else if ranges[n].loc < Reached(ranges, n) then OutOfSequence else CannotRead)
    decreases n - k
  {
    assert ranges[k..] != [] && ranges[k..][0] == ranges[k] && ranges[k..][1..] == ranges[k + 1..];
    if k < n {
      var r := ranges[k];
      assert r.len > 0 && curr <= r.loc;
      RefusedFor(f, ranges, k + 1, n, r.loc + r.len, out + if r.loc > curr then f[curr..r.loc] else []);
    }
  }

  lemma RefusedWhen(f: seq<byte>, ranges: seq<Range>, n: nat)
    ensures Edit(f, [], 0, []) == Aborted(EmptyOffsets)
    ensures n < |ranges| && Honoured(f, ranges, n) ==>
              var r, curr := ranges[n], Reached(ranges, n);
              && (r.len <= 0 && r.len != END_OF_FILE ==> Edit(f, ranges, 0, []) == Aborted(IllegalValue))
              && ((r.len > 0 || r.len == END_OF_FILE) && r.loc < curr ==> Edit(f, ranges, 0, []) == Aborted(OutOfSequence))
              && ((r.len > 0 || r.len == END_OF_FILE) && curr < r.loc && |f| < r.loc ==> Edit(f, ranges, 0, []) == Aborted(CannotRead))
  {
    hide Edit;
    assert ranges[0..] == ranges;
    NothingToEdit(f);
    if n < |ranges| && Honoured(f, ranges, n) {
      var r := ranges[n];
      if (r.len <= 0 && r.len != END_OF_FILE) || r.loc < Reached(ranges, n) || (|f| < r.loc != Reached(ranges, n)) {
        RefusedFor(f, ranges, 0, n, 0, []);
      }
    }
  }

  lemma NothingToEdit(f: seq<byte>)
    ensures Edit(f, [], 0, []) == Aborted(EmptyOffsets)
  {
  }
}
