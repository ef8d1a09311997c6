// Workload management requests as csajrep links them (csa/cmd/csajrep.c): what a well-linked request is, and what
// splicing a cell in does to it.

module SegList {
  import opened Basics
  import opened ReqPool
  import opened RequestSpec

  // struct reqent and struct reqseg
  datatype Ent = Ent(uid: int, prid: int, stime: nat, next: Ref)
  datatype Seg = Seg(jid: int, startTime: int, endTime: int, prev: Ref, next: Ref, list: Ref)

  const ZERO_ENT: Ent := Ent(0, 0, 0, Null)
  const ZERO_SEG: Seg := Seg(0, 0, 0, Null, Null, Null)

  // ---- Doubly linked lists ----

  function PrevOf(order: seq<Ref>, k: int): Ref
    requires k <= |order|
  {
    if k > 0 then order[k - 1] else Null
  }

  function NextOf(order: seq<Ref>, k: int): Ref
    requires -1 <= k < |order|
  {
    if k + 1 < |order| then order[k + 1] else Null
  }

  predicate Distinct(order: seq<Ref>) {
    forall j, k :: 0 <= j < k < |order| ==> order[j] != order[k]
  }

  // From `first`, the next pointers visit exactly these cells in this order and end, and the prev pointers go back.
  predicate WellLinked(segs: Blocks<Seg>, first: Ref, order: seq<Ref>) {
    && Distinct(order) && first == NextOf(order, -1)
    && (forall k :: 0 <= k < |order| ==> InBlocks(segs, order[k]))
    && forall k :: 0 <= k < |order| ==> Cell(segs, order[k]).prev == PrevOf(order, k) && Cell(segs, order[k]).next == NextOf(order, k)
  }

  // x linked in at place k: only its own pointers and those of its neighbours change.
  predicate Spliced(before: Blocks<Seg>, after: Blocks<Seg>, order: seq<Ref>, k: nat, x: Ref)
    requires k <= |order|
    requires InBlocks(before, x) && forall i :: 0 <= i < |order| ==> InBlocks(before, order[i])
    requires InBlocks(after, x) && forall i :: 0 <= i < |order| ==> InBlocks(after, order[i])
  {
    && Cell(after, x) == Cell(before, x).(prev := PrevOf(order, k), next := NextOf(order, k - 1))
    && forall i :: 0 <= i < |order| ==>
      var c := Cell(before, order[i]);
      Cell(after, order[i]) == if i == k - 1 then c.(next := x) else if i == k then c.(prev := x) else c
  }

  lemma InsertedDistinct(order: seq<Ref>, k: nat, x: Ref)
    requires Distinct(order) && k <= |order| && x !in order
    ensures Distinct(Inserted(order, k, x))
  {
    var all := Inserted(order, k, x);
    forall a, b | 0 <= a < b < |all|
      ensures all[a] != all[b]
    {
      var p, q := if a < k then a else a - 1, if b < k then b else b - 1;
      if a != k && b != k {
        assert order[p] != order[q];
      }
    }
  }

  // Neighbours in the list before and after x is inserted
  lemma InsertedNeighbours(order: seq<Ref>, k: nat, x: Ref, i: nat)
    requires k <= |order| && i <= |order|
    ensures var all := Inserted(order, k, x);
            && PrevOf(all, i) == (if i < k then PrevOf(order, i) else if i == k then PrevOf(order, k)
                                  else if i == k + 1 then x else PrevOf(order, i - 1))
            && NextOf(all, i) == if i + 1 < k then NextOf(order, i) else if i + 1 == k then x
                                 else if i == k then NextOf(order, k - 1) else NextOf(order, i - 1)
  {
  }

  lemma SpliceLinks(before: Blocks<Seg>, after: Blocks<Seg>, first: Ref, order: seq<Ref>, k: nat, x: Ref)
    requires WellLinked(before, first, order) && k <= |order| && x !in order
    requires InBlocks(before, x) && InBlocks(after, x) && forall i :: 0 <= i < |order| ==> InBlocks(after, order[i])
    requires Spliced(before, after, order, k, x)
    ensures WellLinked(after, if k == 0 then x else first, Inserted(order, k, x))
  {
    hide Inserted, PrevOf, NextOf, Distinct, Spliced, Cell;
    var all := Inserted(order, k, x);
    InsertedDistinct(order, k, x);
    FirstOf(order, k, x);
    forall i | 0 <= i < |all|
      ensures InBlocks(after, all[i])
      ensures Cell(after, all[i]).prev == PrevOf(all, i) && Cell(after, all[i]).next == NextOf(all, i)
    {
      InsertedAt(order, k, x, i);
      InsertedNeighbours(order, k, x, i);
      if i == k {
        SplicedSelf(before, after, order, k, x);
      } else {
        var j := if i < k then i else i - 1;
        LinksAt(before, first, order, j);
        SplicedOther(before, after, order, k, x, j);
      }
    }
  }

  // Where the cells of the longer list come from
  lemma InsertedAt(order: seq<Ref>, k: nat, x: Ref, i: nat)
    requires k <= |order| && i <= |order|
    ensures |Inserted(order, k, x)| == |order| + 1
    ensures Inserted(order, k, x)[i] == if i < k then order[i] else if i == k then x else order[i - 1]
  {
  }

  // The pointers of the new cell
  lemma SplicedSelf(before: Blocks<Seg>, after: Blocks<Seg>, order: seq<Ref>, k: nat, x: Ref)
    requires k <= |order|
    requires InBlocks(before, x) && forall i :: 0 <= i < |order| ==> InBlocks(before, order[i])
    requires InBlocks(after, x) && forall i :: 0 <= i < |order| ==> InBlocks(after, order[i])
    requires Spliced(before, after, order, k, x)
    ensures Cell(after, x).prev == PrevOf(order, k) && Cell(after, x).next == NextOf(order, k - 1)
  {
    hide PrevOf, NextOf;
  }

  // The pointers of a cell that was there
  lemma SplicedOther(before: Blocks<Seg>, after: Blocks<Seg>, order: seq<Ref>, k: nat, x: Ref, j: nat)
    requires k <= |order| && j < |order|
    requires InBlocks(before, x) && forall i :: 0 <= i < |order| ==> InBlocks(before, order[i])
    requires InBlocks(after, x) && forall i :: 0 <= i < |order| ==> InBlocks(after, order[i])
    requires Spliced(before, after, order, k, x)
    ensures Cell(after, order[j]).prev == (if j == k then x else Cell(before, order[j]).prev)
    ensures Cell(after, order[j]).next == if j == k - 1 then x else Cell(before, order[j]).next
  {
    hide PrevOf, NextOf;
  }

  lemma FirstOf(order: seq<Ref>, k: nat, x: Ref)
    requires k <= |order|
    ensures NextOf(Inserted(order, k, x), -1) == if k == 0 then x else NextOf(order, -1)
  {
  }

  lemma LinksAt(segs: Blocks<Seg>, first: Ref, order: seq<Ref>, k: nat)
    requires WellLinked(segs, first, order) && k < |order|
    ensures Distinct(order) && forall i :: 0 <= i < |order| ==> InBlocks(segs, order[i])
    ensures Cell(segs, order[k]).prev == PrevOf(order, k) && Cell(segs, order[k]).next == NextOf(order, k)
    ensures if k > 0 then PrevOf(order, k) == order[k - 1] != Null else PrevOf(order, k) == Null
    ensures if k + 1 < |order| then NextOf(order, k) == order[k + 1] != Null else NextOf(order, k) == Null
  {
  }

  // The pointer assignments that link x in behind order[k]
  lemma AfterIsSpliced(b0: Blocks<Seg>, b1: Blocks<Seg>, b2: Blocks<Seg>, b3: Blocks<Seg>, order: seq<Ref>, k: nat, x: Ref)
    requires k < |order| && Distinct(order) && x !in order
    requires InBlocks(b0, x) && forall i :: 0 <= i < |order| ==> InBlocks(b0, order[i])
    requires b1 == Put(b0, x, Cell(b0, x).(prev := order[k], next := NextOf(order, k)))
    requires b2 == if k + 1 < |order| then Put(b1, order[k + 1], Cell(b1, order[k + 1]).(prev := x)) else b1
    requires b3 == Put(b2, order[k], Cell(b2, order[k]).(next := x))
    ensures forall q :: InBlocks(b3, q) <==> InBlocks(b0, q)
    ensures Spliced(b0, b3, order, k + 1, x)
  {
    hide Put;
    forall i | 0 <= i < |order|
      ensures order[i] != x && (i != k ==> order[i] != order[k]) && (k + 1 < |order| && i != k + 1 ==> order[i] != order[k + 1])
    {
    }
  }

  lemma BeforeIsSpliced(b0: Blocks<Seg>, b1: Blocks<Seg>, b2: Blocks<Seg>, b3: Blocks<Seg>, order: seq<Ref>, k: nat, x: Ref)
    requires k < |order| && Distinct(order) && x !in order
    requires InBlocks(b0, x) && forall i :: 0 <= i < |order| ==> InBlocks(b0, order[i])
    requires b1 == Put(b0, x, Cell(b0, x).(next := order[k], prev := PrevOf(order, k)))
    requires b2 == if k > 0 then Put(b1, order[k - 1], Cell(b1, order[k - 1]).(next := x)) else b1
    requires b3 == Put(b2, order[k], Cell(b2, order[k]).(prev := x))
    ensures forall q :: InBlocks(b3, q) <==> InBlocks(b0, q)
    ensures Spliced(b0, b3, order, k, x)
  {
    hide Put;
    forall i | 0 <= i < |order|
      ensures order[i] != x && (i != k ==> order[i] != order[k]) && (k > 0 && i != k - 1 ==> order[i] != order[k - 1])
    {
    }
  }

  // ---- Entries of a segment ----

  // From `head`, the next pointers visit exactly these cells.
  predicate Chained(ents: Blocks<Ent>, head: Ref, list: seq<Ref>) {
    && list != [] && head == list[0]
    && (forall a :: 0 <= a < |list| ==> InBlocks(ents, list[a]))
    && forall a :: 0 <= a < |list| ==> Cell(ents, list[a]).next == NextOf(list, a)
  }

  // The next pointers of these cells are what they were.
  predicate SameNext(before: Blocks<Ent>, after: Blocks<Ent>, refs: seq<Ref>) {
    forall a :: 0 <= a < |refs| && InBlocks(before, refs[a]) ==>
      InBlocks(after, refs[a]) && Cell(after, refs[a]).next == Cell(before, refs[a]).next
  }

  lemma ChainKept(before: Blocks<Ent>, after: Blocks<Ent>, head: Ref, list: seq<Ref>)
    requires Chained(before, head, list) && SameNext(before, after, list)
    ensures Chained(after, head, list)
  {
  }

  lemma ChainExtended(before: Blocks<Ent>, after: Blocks<Ent>, head: Ref, list: seq<Ref>, x: Ref)
    requires Chained(before, head, list) && Distinct(list) && x !in list
    requires InBlocks(after, x) && Cell(after, x).next == Null
    requires forall a :: 0 <= a < |list| ==>
               InBlocks(after, list[a])
               && Cell(after, list[a]).next == if a == |list| - 1 then x else Cell(before, list[a]).next
    ensures Chained(after, head, list + [x])
  {
  }

  // ---- Usage ----

  // What an entry says, with the job of its segment
  ghost function RowOf(segs: Blocks<Seg>, ents: Blocks<Ent>, owner: map<Ref, Ref>, r: Ref): Row {
    if r in owner && InBlocks(segs, owner[r]) && InBlocks(ents, r)
    then Row(Cell(segs, owner[r]).jid, Cell(ents, r).uid, Cell(ents, r).prid, Cell(ents, r).stime)
    else Row(0, 0, 0, 0)
  }

  ghost function Rows(segs: Blocks<Seg>, ents: Blocks<Ent>, owner: map<Ref, Ref>, refs: seq<Ref>): (rows: seq<Row>)
    ensures |rows| == |refs| && forall i :: 0 <= i < |refs| ==> rows[i] == RowOf(segs, ents, owner, refs[i])
  {
    if refs == [] then []
    else Rows(segs, ents, owner, refs[..|refs| - 1]) + [RowOf(segs, ents, owner, refs[|refs| - 1])]
  }

  // ---- What a step leaves alone ----

  // Segments keep everything but their neighbours.
  predicate SameData(before: Blocks<Seg>, after: Blocks<Seg>, order: seq<Ref>) {
    forall i :: 0 <= i < |order| && InBlocks(before, order[i]) ==>
      InBlocks(after, order[i])
      && Cell(after, order[i]).(prev := Null, next := Null) == Cell(before, order[i]).(prev := Null, next := Null)
  }

  // Blocks that only grew
  ghost predicate Grown<T(!new)>(before: Blocks<T>, after: Blocks<T>) {
    forall q :: InBlocks(before, q) ==> InBlocks(after, q) && Cell(after, q) == Cell(before, q)
  }

  lemma LinkedGrown(before: Blocks<Seg>, after: Blocks<Seg>, first: Ref, order: seq<Ref>)
    requires WellLinked(before, first, order) && Grown(before, after)
    ensures WellLinked(after, first, order)
  {
  }

  lemma LinkedPutElsewhere(before: Blocks<Seg>, after: Blocks<Seg>, first: Ref, order: seq<Ref>, x: Ref, s: Seg)
    requires WellLinked(before, first, order) && InBlocks(before, x) && x !in order && after == Put(before, x, s)
    ensures WellLinked(after, first, order)
  {
    hide Put, PrevOf, NextOf, Distinct;
    forall k | 0 <= k < |order|
      ensures InBlocks(after, order[k]) && Cell(after, order[k]) == Cell(before, order[k])
    {
      assert order[k] != x;
    }
  }

  lemma SplicedSameData(before: Blocks<Seg>, after: Blocks<Seg>, order: seq<Ref>, k: nat, x: Ref)
    requires k <= |order|
    requires InBlocks(before, x) && forall i :: 0 <= i < |order| ==> InBlocks(before, order[i])
    requires InBlocks(after, x) && forall i :: 0 <= i < |order| ==> InBlocks(after, order[i])
    requires Spliced(before, after, order, k, x)
    ensures SameData(before, after, order)
    ensures Cell(after, x).(prev := Null, next := Null) == Cell(before, x).(prev := Null, next := Null)
  {
    hide PrevOf, NextOf;
  }

  // ---- Sums do not depend on the order ----

  function Without<T>(refs: seq<T>, k: nat): (r: seq<T>)
    requires k < |refs|
    ensures |r| == |refs| - 1
  {
    refs[..k] + refs[k + 1..]
  }

  lemma {:induction false} TotalWithout(rows: seq<Row>, k: nat, key: Key)
    requires k < |rows|
    ensures Total(rows, key) == Total(Without(rows, k), key) + Share(rows[k], key)
    decreases |rows|
  {
    hide Share;
    var n := |rows| - 1;
    if k < n {
      TotalWithout(rows[..n], k, key);
      assert Without(rows, k)[..n - 1] == Without(rows[..n], k);
      assert Without(rows, k)[n - 1] == rows[n];
    } else {
      assert Without(rows, k) == rows[..n];
    }
  }

  ghost predicate SameElements(a: seq<Ref>, b: seq<Ref>) {
    forall x :: x in a <==> x in b
  }

  lemma WithoutElements(a: seq<Ref>, b: seq<Ref>, k: nat)
    requires Distinct(a) && Distinct(b) && SameElements(a, b) && a != [] && k < |b| && b[k] == a[|a| - 1]
    ensures Distinct(Without(b, k)) && SameElements(a[..|a| - 1], Without(b, k))
  {
    var n := |a| - 1;
    var c := Without(b, k);
    assert forall i :: 0 <= i < |c| ==> c[i] == b[if i < k then i else i + 1];
    forall x
      ensures x in a[..n] <==> x in c
    {
      if x in a[..n] {
        assert x in a && x != a[n];
        if j :| 0 <= j < |b| && b[j] == x {
          assert j != k && c[if j < k then j else j - 1] == x;
        }
      }
      if x in c {
        if j :| 0 <= j < |c| && c[j] == x {
          assert b[if j < k then j else j + 1] == x && x in b && x in a && x != b[k];
          if m :| 0 <= m < |a| && a[m] == x {
            assert a[..n][m] == x;
          }
        }
      }
    }
  }

  lemma {:induction false} SameElementsTotal(segs: Blocks<Seg>, ents: Blocks<Ent>, owner: map<Ref, Ref>, a: seq<Ref>, b: seq<Ref>,
                                             key: Key)
    requires Distinct(a) && Distinct(b) && SameElements(a, b)
    ensures Total(Rows(segs, ents, owner, a), key) == Total(Rows(segs, ents, owner, b), key)
    decreases |a|
  {
    hide Distinct, SameElements, Rows, Total, Without;
    if a == [] {
      if b != [] {
        NonEmptySame(a, b);
      }
    } else {
      LastIn(a, b);
      var n := |a| - 1;
      if k :| 0 <= k < |b| && b[k] == a[n] {
        WithoutElements(a, b, k);
        DistinctStart(a);
        SameElementsTotal(segs, ents, owner, a[..n], Without(b, k), key);
        LastTotal(segs, ents, owner, a, key);
        OneOfTotal(segs, ents, owner, b, k, key);
      }
    }
  }

  lemma LastTotal(segs: Blocks<Seg>, ents: Blocks<Ent>, owner: map<Ref, Ref>, a: seq<Ref>, key: Key)
    requires a != []
    ensures Total(Rows(segs, ents, owner, a), key)
            == Total(Rows(segs, ents, owner, a[..|a| - 1]), key) + Share(RowOf(segs, ents, owner, a[|a| - 1]), key)
  {
    hide RowOf, Share;
    TotalPush(Rows(segs, ents, owner, a[..|a| - 1]), RowOf(segs, ents, owner, a[|a| - 1]), key);
  }

  lemma RowsWithout(segs: Blocks<Seg>, ents: Blocks<Ent>, owner: map<Ref, Ref>, b: seq<Ref>, k: nat)
    requires k < |b|
    ensures Rows(segs, ents, owner, Without(b, k)) == Without(Rows(segs, ents, owner, b), k)
  {
    hide RowOf, Rows;
    var c, d := Without(b, k), Without(Rows(segs, ents, owner, b), k);
    assert forall i :: 0 <= i < |c| ==> c[i] == b[if i < k then i else i + 1];
    assert forall i :: 0 <= i < |d| ==> d[i] == Rows(segs, ents, owner, b)[if i < k then i else i + 1];
  }

  lemma OneOfTotal(segs: Blocks<Seg>, ents: Blocks<Ent>, owner: map<Ref, Ref>, b: seq<Ref>, k: nat, key: Key)
    requires k < |b|
    ensures Total(Rows(segs, ents, owner, b), key)
            == Total(Rows(segs, ents, owner, Without(b, k)), key) + Share(RowOf(segs, ents, owner, b[k]), key)
  {
    hide RowOf, Share, Rows, Total, Without;
    TotalWithout(Rows(segs, ents, owner, b), k, key);
    RowsWithout(segs, ents, owner, b, k);
  }

  lemma NonEmptySame(a: seq<Ref>, b: seq<Ref>)
    requires SameElements(a, b) && b != []
    ensures a != []
  {
    assert b[0] in b;
  }

  lemma LastIn(a: seq<Ref>, b: seq<Ref>)
    requires SameElements(a, b) && a != []
    ensures a[|a| - 1] in b
  {
    assert a[|a| - 1] in a;
  }

  lemma DistinctStart(a: seq<Ref>)
    requires Distinct(a) && a != []
    ensures Distinct(a[..|a| - 1])
  {
  }
}
