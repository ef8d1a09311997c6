// Gathering a workload management request (csa/cmd/csajrep.c): segments and their entries, linked in place.

module Csajrep {
  import opened Basics
  import opened ReqPool
  import opened RequestSpec
  import opened SegList

  const RSEG_INC: nat := 25
  const RENT_INC: nat := 75

  // ---- What is kept ----

  // Chains of entries: every segment has one, every entry is in the chain of exactly one segment.
  ghost predicate Owned(order: seq<Ref>, lists: map<Ref, seq<Ref>>, owner: map<Ref, Ref>, ents: seq<Ref>) {
    && Distinct(ents)
    && (forall k :: 0 <= k < |order| ==> order[k] in lists && lists[order[k]] != [])
    && (forall k, a :: 0 <= k < |order| && 0 <= a < |lists[order[k]]| ==>
          lists[order[k]][a] in owner && owner[lists[order[k]][a]] == order[k])
    && (forall k :: 0 <= k < |order| ==> Distinct(lists[order[k]]))
    && (forall e :: e in owner <==> e in ents)
    && (forall e :: e in owner ==> owner[e] in order && e in lists[owner[e]])
  }

  // The chains in the cells
  ghost predicate AllChained(segs: Blocks<Seg>, ents: Blocks<Ent>, order: seq<Ref>, lists: map<Ref, seq<Ref>>) {
    forall k :: 0 <= k < |order| ==>
      && InBlocks(segs, order[k]) && order[k] in lists
      && Chained(ents, Cell(segs, order[k]).list, lists[order[k]])
  }

  lemma PushMembers(refs: seq<Ref>, x: Ref)
    ensures forall y :: y in refs + [x] <==> y in refs || y == x
    ensures Distinct(refs) && x !in refs ==> Distinct(refs + [x])
  {
    assert (refs + [x])[|refs|] == x;
    forall y | y in refs
      ensures y in refs + [x]
    {
      if j :| 0 <= j < |refs| && refs[j] == y { assert (refs + [x])[j] == y; }
    }
  }

  lemma InsertedMembers(order: seq<Ref>, k: nat, x: Ref)
    requires k <= |order|
    ensures forall y :: y in Inserted(order, k, x) <==> y in order || y == x
  {
    var all := Inserted(order, k, x);
    assert all[k] == x;
    forall y | y in order
      ensures y in all
    {
      if j :| 0 <= j < |order| && order[j] == y { assert all[if j < k then j else j + 1] == y; }
    }
  }

  lemma OwnedNew(order: seq<Ref>, lists: map<Ref, seq<Ref>>, owner: map<Ref, Ref>, ents: seq<Ref>, k: nat, s: Ref, e: Ref)
    requires Owned(order, lists, owner, ents) && k <= |order| && s !in order && e !in ents
    ensures Owned(Inserted(order, k, s), lists[s := [e]], owner[e := s], ents + [e])
  {
    var o, l, w := Inserted(order, k, s), lists[s := [e]], owner[e := s];
    PushMembers(ents, e);
    InsertedMembers(order, k, s);
    forall i | 0 <= i < |o|
      ensures o[i] in l && l[o[i]] != [] && Distinct(l[o[i]])
      ensures forall a :: 0 <= a < |l[o[i]]| ==> l[o[i]][a] in w && w[l[o[i]][a]] == o[i]
    {
      if i != k {
        var j := if i < k then i else i - 1;
        assert o[i] == order[j] && l[o[i]] == lists[order[j]];
      }
    }
  }

  lemma OwnedMore(order: seq<Ref>, lists: map<Ref, seq<Ref>>, owner: map<Ref, Ref>, ents: seq<Ref>, s: Ref, e: Ref)
    requires Owned(order, lists, owner, ents) && s in order && e !in ents
    ensures Owned(order, lists[s := lists[s] + [e]], owner[e := s], ents + [e])
  {
    var l, w := lists[s := lists[s] + [e]], owner[e := s];
    PushMembers(ents, e);
    PushMembers(lists[s], e);
    forall i | 0 <= i < |order|
      ensures Distinct(l[order[i]])
      ensures forall a :: 0 <= a < |l[order[i]]| ==> l[order[i]][a] in w && w[l[order[i]][a]] == order[i]
    {
      if order[i] == s {
        forall a | 0 <= a < |lists[s]|
          ensures lists[s][a] != e
        {
          assert lists[s][a] in owner;
        }
      }
    }
  }

  lemma AllChainedInserted(segs0: Blocks<Seg>, segs1: Blocks<Seg>, ents0: Blocks<Ent>, ents1: Blocks<Ent>, order: seq<Ref>,
                           k: nat, x: Ref, lists: map<Ref, seq<Ref>>, e: Ref)
    requires AllChained(segs0, ents0, order, lists) && k <= |order| && x !in order
    requires SameData(segs0, segs1, order) && Grown(ents0, ents1)
    requires InBlocks(segs1, x) && Cell(segs1, x).list == e && InBlocks(ents1, e) && Cell(ents1, e).next == Null
    ensures AllChained(segs1, ents1, Inserted(order, k, x), lists[x := [e]])
  {
    hide Chained;
    var o, l := Inserted(order, k, x), lists[x := [e]];
    forall i | 0 <= i < |o|
      ensures InBlocks(segs1, o[i]) && o[i] in l && Chained(ents1, Cell(segs1, o[i]).list, l[o[i]])
    {
      if i == k {
        OneChained(ents1, e);
      } else {
        var j := if i < k then i else i - 1;
        assert o[i] == order[j];
        ChainGrown(ents0, ents1, Cell(segs0, o[i]).list, lists[o[i]]);
      }
    }
  }

  lemma OneChained(ents: Blocks<Ent>, e: Ref)
    requires InBlocks(ents, e) && Cell(ents, e).next == Null
    ensures Chained(ents, e, [e])
  {
  }

  lemma ChainGrown(before: Blocks<Ent>, after: Blocks<Ent>, head: Ref, list: seq<Ref>)
    requires Chained(before, head, list) && Grown(before, after)
    ensures Chained(after, head, list)
  {
  }

  // Every entry met on a walk over the segments and their chains, as print_wm takes them
  ghost function Walk(order: seq<Ref>, lists: map<Ref, seq<Ref>>): seq<Ref>
    requires forall k :: 0 <= k < |order| ==> order[k] in lists
  {
    if order == [] then [] else Walk(order[..|order| - 1], lists) + lists[order[|order| - 1]]
  }

  lemma {:induction false} WalkMeets(order: seq<Ref>, lists: map<Ref, seq<Ref>>, x: Ref)
    requires forall k :: 0 <= k < |order| ==> order[k] in lists
    ensures x in Walk(order, lists) <==> exists k :: 0 <= k < |order| && x in lists[order[k]]
    decreases |order|
  {
    if order != [] {
      var n := |order| - 1;
      WalkMeets(order[..n], lists, x);
      if exists k :: 0 <= k < |order| && x in lists[order[k]] {
        if k :| 0 <= k < |order| && x in lists[order[k]] {
          assert k < n ==> order[..n][k] == order[k];
        }
      }
    }
  }

  lemma {:induction false} WalkDistinct(order: seq<Ref>, lists: map<Ref, seq<Ref>>, owner: map<Ref, Ref>)
    requires Distinct(order) && forall k :: 0 <= k < |order| ==> order[k] in lists && Distinct(lists[order[k]])
    requires forall k, a :: 0 <= k < |order| && 0 <= a < |lists[order[k]]| ==>
               lists[order[k]][a] in owner && owner[lists[order[k]][a]] == order[k]
    ensures Distinct(Walk(order, lists))
    decreases |order|
  {
    if order != [] {
      var n := |order| - 1;
      var before, last := Walk(order[..n], lists), lists[order[n]];
      WalkDistinct(order[..n], lists, owner);
      forall i, j | 0 <= i < |before| && 0 <= j < |last|
        ensures before[i] != last[j]
      {
        WalkMeets(order[..n], lists, before[i]);
        assert before[i] in before;
        if k :| 0 <= k < n && before[i] in lists[order[..n][k]] {
          if a :| 0 <= a < |lists[order[k]]| && lists[order[k]][a] == before[i] {
            assert owner[before[i]] == order[k] != order[n] == owner[last[j]];
          }
        }
      }
    }
  }

  lemma WalkIsEnts(order: seq<Ref>, lists: map<Ref, seq<Ref>>, owner: map<Ref, Ref>, ents: seq<Ref>)
    requires Distinct(order) && Owned(order, lists, owner, ents)
    ensures (forall k :: 0 <= k < |order| ==> order[k] in lists) && Distinct(ents)
    ensures Distinct(Walk(order, lists)) && SameElements(Walk(order, lists), ents)
  {
    WalkDistinct(order, lists, owner);
    forall x
      ensures x in Walk(order, lists) <==> x in ents
    {
      WalkMeets(order, lists, x);
      if x in ents {
        assert x in owner && owner[x] in order;
        if k :| 0 <= k < |order| && order[k] == owner[x] {
          assert x in lists[order[k]];
        }
      }
      if x in Walk(order, lists) {
        if k :| 0 <= k < |order| && x in lists[order[k]] {
          if a :| 0 <= a < |lists[order[k]]| && lists[order[k]][a] == x {
            assert x in owner;
          }
        }
      }
    }
  }

  // ---- What the cells say ----

  ghost function UseOf(ents: Blocks<Ent>, r: Ref): Use {
    if InBlocks(ents, r) then Use(Cell(ents, r).uid, Cell(ents, r).prid, Cell(ents, r).stime) else Use(0, 0, 0)
  }

  ghost function Uses(ents: Blocks<Ent>, list: seq<Ref>): (uses: seq<Use>)
    ensures |uses| == |list| && forall a :: 0 <= a < |list| ==> uses[a] == UseOf(ents, list[a])
  {
    seq(|list|, a requires 0 <= a < |list| => UseOf(ents, list[a]))
  }

  ghost function SegmentAt(segs: Blocks<Seg>, ents: Blocks<Ent>, lists: map<Ref, seq<Ref>>, r: Ref): Segment {
    if InBlocks(segs, r) && r in lists
    then Segment(Cell(segs, r).jid, Cell(segs, r).startTime, Cell(segs, r).endTime, Uses(ents, lists[r]))
    else Segment(0, 0, 0, [])
  }

  // The request in list order
  ghost function View(segs: Blocks<Seg>, ents: Blocks<Ent>, order: seq<Ref>, lists: map<Ref, seq<Ref>>): (v: seq<Segment>)
    ensures |v| == |order| && forall k :: 0 <= k < |order| ==> v[k] == SegmentAt(segs, ents, lists, order[k])
  {
    seq(|order|, k requires 0 <= k < |order| => SegmentAt(segs, ents, lists, order[k]))
  }

  lemma RowsConcat(segs: Blocks<Seg>, ents: Blocks<Ent>, owner: map<Ref, Ref>, a: seq<Ref>, b: seq<Ref>)
    ensures Rows(segs, ents, owner, a + b) == Rows(segs, ents, owner, a) + Rows(segs, ents, owner, b)
  {
  }

  // What the report meets on its walk
  lemma {:induction false} RowsOfWalk(segs: Blocks<Seg>, ents: Blocks<Ent>, order: seq<Ref>, lists: map<Ref, seq<Ref>>,
                                      owner: map<Ref, Ref>, n: nat)
    requires n <= |order| && AllChained(segs, ents, order, lists)
    requires forall k, a :: 0 <= k < |order| && 0 <= a < |lists[order[k]]| ==>
               lists[order[k]][a] in owner && owner[lists[order[k]][a]] == order[k]
    ensures forall k :: 0 <= k < n ==> order[..n][k] in lists
    ensures Rows(segs, ents, owner, Walk(order[..n], lists)) == SegRows(View(segs, ents, order, lists)[..n])
    decreases n
  {
    hide Rows, View, Chained;
    if n > 0 {
      RowsOfWalk(segs, ents, order, lists, owner, n - 1);
      assert order[..n][..n - 1] == order[..n - 1];
      var v := View(segs, ents, order, lists);
      assert v[..n][..n - 1] == v[..n - 1];
      RowsConcat(segs, ents, owner, Walk(order[..n - 1], lists), lists[order[n - 1]]);
      RowsOfSegment(segs, ents, lists, owner, order[n - 1]);
      ViewAt(segs, ents, order, lists, n - 1);
    } else {
      assert order[..0] == [] && View(segs, ents, order, lists)[..0] == [];
      NoRows(segs, ents, owner);
    }
  }

  lemma ViewAt(segs: Blocks<Seg>, ents: Blocks<Ent>, order: seq<Ref>, lists: map<Ref, seq<Ref>>, k: nat)
    requires k < |order|
    ensures |View(segs, ents, order, lists)| == |order|
    ensures View(segs, ents, order, lists)[k] == SegmentAt(segs, ents, lists, order[k])
  {
  }

  lemma NoRows(segs: Blocks<Seg>, ents: Blocks<Ent>, owner: map<Ref, Ref>)
    ensures Rows(segs, ents, owner, []) == []
  {
  }

  lemma RowsOfSegment(segs: Blocks<Seg>, ents: Blocks<Ent>, lists: map<Ref, seq<Ref>>, owner: map<Ref, Ref>, s: Ref)
    requires InBlocks(segs, s) && s in lists && Chained(ents, Cell(segs, s).list, lists[s])
    requires forall a :: 0 <= a < |lists[s]| ==> lists[s][a] in owner && owner[lists[s][a]] == s
    ensures Rows(segs, ents, owner, lists[s])
            == UseRows(SegmentAt(segs, ents, lists, s).jid, SegmentAt(segs, ents, lists, s).uses)
  {
  }

  // What the report adds up, walking a valid request, for a user in a job, for one of the user's projects there, or in all,
  // is all there is in the entries that were handed out: it meets every one of them once.
  lemma WalkedTotal(segs: Blocks<Seg>, ents: Blocks<Ent>, order: seq<Ref>, lists: map<Ref, seq<Ref>>, owner: map<Ref, Ref>,
                    all: seq<Ref>, key: Key)
    requires Distinct(order) && AllChained(segs, ents, order, lists) && Owned(order, lists, owner, all)
    ensures Sum(View(segs, ents, order, lists), key) == Total(Rows(segs, ents, owner, all), key)
  {
    hide Distinct, AllChained, Rows, View, Total;
    WalkIsEnts(order, lists, owner, all);
    SameElementsTotal(segs, ents, owner, Walk(order, lists), all, key);
    RowsOfWalk(segs, ents, order, lists, owner, |order|);
    assert order[..|order|] == order;
    ViewSize(segs, ents, order, lists);
    assert View(segs, ents, order, lists)[..|order|] == View(segs, ents, order, lists);
  }

  lemma ViewSize(segs: Blocks<Seg>, ents: Blocks<Ent>, order: seq<Ref>, lists: map<Ref, seq<Ref>>)
    ensures |View(segs, ents, order, lists)| == |order|
  {
  }

  // ---- Changes of cells, in the view ----

  lemma ViewPutSeg(b0: Blocks<Seg>, b1: Blocks<Seg>, ents: Blocks<Ent>, order: seq<Ref>, lists: map<Ref, seq<Ref>>, k: nat, s: Seg)
    requires Distinct(order) && k < |order| && InBlocks(b0, order[k]) && b1 == Put(b0, order[k], s) && order[k] in lists
    ensures var v := View(b0, ents, order, lists);
            View(b1, ents, order, lists)
            == v[k := v[k].(jid := s.jid, startTime := s.startTime, endTime := s.endTime)]
  {
    hide Put, Uses;
    OnlyHere(order, k);
  }

  function WithUse(segs: seq<Segment>, k: nat, u: Use): seq<Segment>
    requires k < |segs|
  {
    segs[k := segs[k].(uses := segs[k].uses + [u])]
  }

  // A change of entry a of segment k, which is in no other chain
  lemma ViewPutEnt(segs: Blocks<Seg>, e0: Blocks<Ent>, e1: Blocks<Ent>, order: seq<Ref>, lists: map<Ref, seq<Ref>>,
                   owner: map<Ref, Ref>, all: seq<Ref>, k: nat, a: nat, c: Ent)
    requires Distinct(order) && Owned(order, lists, owner, all) && k < |order| && a < |lists[order[k]]|
    requires InBlocks(segs, order[k]) && InBlocks(e0, lists[order[k]][a]) && e1 == Put(e0, lists[order[k]][a], c)
    ensures var v := View(segs, e0, order, lists);
            a < |v[k].uses| && View(segs, e1, order, lists) == v[k := v[k].(uses := v[k].uses[a := Use(c.uid, c.prid, c.stime)])]
  {
    hide Put;
    var v, w := View(segs, e0, order, lists), View(segs, e1, order, lists);
    var r := lists[order[k]][a];
    forall j | 0 <= j < |order|
      ensures w[j] == if j == k then v[k].(uses := v[k].uses[a := Use(c.uid, c.prid, c.stime)]) else v[j]
    {
      if j == k {
        OnlyHere(lists[order[k]], a);
        assert Uses(e1, lists[order[k]]) == Uses(e0, lists[order[k]])[a := Use(c.uid, c.prid, c.stime)];
      } else {
        OnlyHere(order, k);
        assert forall i :: 0 <= i < |lists[order[j]]| ==> owner[lists[order[j]][i]] == order[j];
        SameUses(e0, e1, lists[order[j]]);
      }
    }
  }

  // Entries that say the same in two states
  lemma SameUses(e0: Blocks<Ent>, e1: Blocks<Ent>, list: seq<Ref>)
    requires forall i :: 0 <= i < |list| ==> UseOf(e1, list[i]) == UseOf(e0, list[i])
    ensures Uses(e1, list) == Uses(e0, list)
  {
  }

  // The cells of these entries keep what they say.
  ghost predicate SameUsage(before: Blocks<Ent>, after: Blocks<Ent>, ents: seq<Ref>) {
    forall q :: q in ents && InBlocks(before, q) ==>
      InBlocks(after, q) && Cell(after, q).(next := Null) == Cell(before, q).(next := Null)
  }

  lemma SameUsageUses(e0: Blocks<Ent>, e1: Blocks<Ent>, list: seq<Ref>, all: seq<Ref>)
    requires SameUsage(e0, e1, all) && forall i :: 0 <= i < |list| ==> list[i] in all && InBlocks(e0, list[i])
    ensures Uses(e1, list) == Uses(e0, list)
  {
    forall i | 0 <= i < |list|
      ensures UseOf(e1, list[i]) == UseOf(e0, list[i])
    {
      assert list[i] in all;
    }
  }

  // The entries of a segment have their cells.
  lemma ChainInBlocks(segs: Blocks<Seg>, ents: Blocks<Ent>, order: seq<Ref>, lists: map<Ref, seq<Ref>>, owner: map<Ref, Ref>,
                      all: seq<Ref>, k: nat)
    requires AllChained(segs, ents, order, lists) && Owned(order, lists, owner, all) && k < |order|
    ensures InBlocks(segs, order[k]) && order[k] in lists
    ensures forall i :: 0 <= i < |lists[order[k]]| ==> InBlocks(ents, lists[order[k]][i]) && lists[order[k]][i] in all
  {
    assert order[k] in order;
    ChainInEnts(order, lists, owner, all, order[k]);
  }

  // A new entry at the end of the chain of segment k
  lemma ViewMore(segs: Blocks<Seg>, e0: Blocks<Ent>, e1: Blocks<Ent>, order: seq<Ref>, lists: map<Ref, seq<Ref>>,
                 owner: map<Ref, Ref>, all: seq<Ref>, k: nat, x: Ref)
    requires Distinct(order) && AllChained(segs, e0, order, lists) && Owned(order, lists, owner, all) && k < |order|
    requires SameUsage(e0, e1, all) && InBlocks(e1, x) && x !in all
    ensures order[k] in lists
    ensures var v := View(segs, e0, order, lists);
            View(segs, e1, order, lists[order[k] := lists[order[k]] + [x]]) == v[k := v[k].(uses := v[k].uses + [UseOf(e1, x)])]
  {
    hide AllChained, Owned, SameUsage, UseOf;
    ChainInBlocks(segs, e0, order, lists, owner, all, k);
    var l := lists[order[k] := lists[order[k]] + [x]];
    var v, w := View(segs, e0, order, lists), View(segs, e1, order, l);
    forall j | 0 <= j < |order|
      ensures w[j] == if j == k then v[k].(uses := v[k].uses + [UseOf(e1, x)]) else v[j]
    {
      ChainInBlocks(segs, e0, order, lists, owner, all, j);
      SameUsageUses(e0, e1, lists[order[j]], all);
      OnlyHere(order, k);
      if j == k {
        assert Uses(e1, lists[order[k]] + [x]) == Uses(e1, lists[order[k]]) + [UseOf(e1, x)];
      }
    }
  }

  // A new segment x with one entry e, at place k
  lemma ViewInserted(b0: Blocks<Seg>, b1: Blocks<Seg>, e0: Blocks<Ent>, e1: Blocks<Ent>, order: seq<Ref>, lists: map<Ref, seq<Ref>>,
                     owner: map<Ref, Ref>, all: seq<Ref>, k: nat, x: Ref, e: Ref)
    requires AllChained(b0, e0, order, lists) && Owned(order, lists, owner, all) && k <= |order| && x !in order
    requires SameData(b0, b1, order) && SameUsage(e0, e1, all) && InBlocks(b1, x)
    ensures View(b1, e1, Inserted(order, k, x), lists[x := [e]])
            == Inserted(View(b0, e0, order, lists), k,
                        Segment(Cell(b1, x).jid, Cell(b1, x).startTime, Cell(b1, x).endTime, [UseOf(e1, e)]))
  {
    hide AllChained, Owned, SameUsage, UseOf;
    var o, l := Inserted(order, k, x), lists[x := [e]];
    var v, w := View(b0, e0, order, lists), View(b1, e1, o, l);
    var new0 := Segment(Cell(b1, x).jid, Cell(b1, x).startTime, Cell(b1, x).endTime, [UseOf(e1, e)]);
    forall i | 0 <= i < |o|
      ensures w[i] == Inserted(v, k, new0)[i]
    {
      if i == k {
        assert Uses(e1, [e]) == [UseOf(e1, e)];
      } else {
        var j := if i < k then i else i - 1;
        ChainInBlocks(b0, e0, order, lists, owner, all, j);
        SameUsageUses(e0, e1, lists[order[j]], all);
        assert o[i] == order[j] && order[j] != x;
      }
    }
  }

  lemma InsertedThenSet<T>(s: seq<T>, k: nat, x: T, y: T)
    requires k <= |s|
    ensures Inserted(s, k, x)[k := y] == Inserted(s, k, y)
  {
  }

  // A list without repetitions has each of its elements in one place.
  lemma PlaceIs(order: seq<Ref>, k: nat)
    requires Distinct(order) && k < |order|
    ensures order[k] in order && Place(order, order[k]) == k
  {
    OnlyHere(order, k);
  }

  class Request {
    const rseg: Pool<Seg>
    const rent: Pool<Ent>
    var first: Ref
    var curr: Ref
    var ent: Ref
    ghost var order: seq<Ref>             // the segments, in list order
    ghost var lists: map<Ref, seq<Ref>>   // the entries of each segment, in chain order
    ghost var owner: map<Ref, Ref>        // the segment of each entry
    ghost var ents: seq<Ref>              // all entries

    ghost predicate PoolsValid()
      reads this, rseg, rent
    {
      && rseg.Valid() && rent.Valid() && rseg.zero == ZERO_SEG && rent.zero == ZERO_ENT
      && (forall k :: 0 <= k < |order| ==> order[k] in rseg.used)
      && (forall i :: 0 <= i < |ents| ==> ents[i] in rent.used)
    }

    // Segments well linked, entries chained, nothing shared
    ghost predicate Valid()
      reads this, rseg, rent
    {
      && PoolsValid() && WellLinked(rseg.blocks, first, order)
      && AllChained(rseg.blocks, rent.blocks, order, lists) && Owned(order, lists, owner, ents)
    }

    // The segments with their usage, in list order
    ghost function Segs(): (v: seq<Segment>)
      reads this`order, this`lists, rseg, rent
      ensures |v| == |order|
    {
      View(rseg.blocks, rent.blocks, order, lists)
    }

    // The request and its current segment
    ghost function State(): (r: Req)
      requires curr in order
      reads this, rseg, rent
      ensures RequestSpec.Positioned(r)
    {
      Req(Segs(), Place(order, curr))
    }

    // The current segment and entry belong to the request.
    ghost predicate Positioned()
      reads this
    {
      && curr in order && curr in lists && ent in lists[curr]
    }

    constructor ()
      ensures Valid() && order == [] && ents == [] && fresh(rseg) && fresh(rent)
    {
      rseg := new Pool(ZERO_SEG, RSEG_INC);
      rent := new Pool(ZERO_ENT, RENT_INC);
      first, curr, ent := Null, Null, Null;
      order, lists, owner, ents := [], map[], map[], [];
    }

    // ---- Linking ----

    method SetSeg(r: Ref, s: Seg)
      requires rseg.Valid() && r in rseg.used
      modifies rseg`blocks
      ensures rseg.Valid() && InBlocks(old(rseg.blocks), r) && rseg.blocks == Put(old(rseg.blocks), r, s)
    {
      rseg.Set(r, s);
    }

    // Link x in behind `at`.
    method SpliceAfter(x: Ref, at: Ref, ghost k: nat)
      requires rseg.Valid() && WellLinked(rseg.blocks, first, order) && forall i :: 0 <= i < |order| ==> order[i] in rseg.used
      requires k < |order| && order[k] == at && x !in order && x in rseg.used
      modifies this`order, rseg`blocks
      ensures rseg.Valid() && order == Inserted(old(order), k + 1, x) && WellLinked(rseg.blocks, first, order)
      ensures InBlocks(old(rseg.blocks), x) && (forall q :: InBlocks(rseg.blocks, q) <==> InBlocks(old(rseg.blocks), q))
      ensures Spliced(old(rseg.blocks), rseg.blocks, old(order), k + 1, x)
    {
      hide Put, Spliced, Inserted, WellLinked, Distinct, NextOf, PrevOf, Cell;
      ghost var b0 := rseg.blocks;
      LinksAt(b0, first, order, k);
      var next := Cell(rseg.blocks, at).next;
      rseg.Set(x, Cell(rseg.blocks, x).(prev := at, next := next));
      ghost var b1 := rseg.blocks;
      if next != Null {
        rseg.Set(next, Cell(rseg.blocks, next).(prev := x));
      }
      ghost var b2 := rseg.blocks;
      rseg.Set(at, Cell(rseg.blocks, at).(next := x));
      AfterIsSpliced(b0, b1, b2, rseg.blocks, order, k, x);
      SpliceLinks(b0, rseg.blocks, first, order, k + 1, x);
      order := Inserted(order, k + 1, x);
    }

    // Link x in before `at`.
    method SpliceBefore(x: Ref, at: Ref, ghost k: nat)
      requires rseg.Valid() && WellLinked(rseg.blocks, first, order) && forall i :: 0 <= i < |order| ==> order[i] in rseg.used
      requires k < |order| && order[k] == at && x !in order && x in rseg.used
      modifies this`order, this`first, rseg`blocks
      ensures rseg.Valid() && order == Inserted(old(order), k, x) && WellLinked(rseg.blocks, first, order)
      ensures InBlocks(old(rseg.blocks), x) && (forall q :: InBlocks(rseg.blocks, q) <==> InBlocks(old(rseg.blocks), q))
      ensures Spliced(old(rseg.blocks), rseg.blocks, old(order), k, x)
    {
      hide Put, Spliced, Inserted, WellLinked, Distinct, NextOf, PrevOf, Cell;
      ghost var first0, b0 := first, rseg.blocks;
      LinksAt(b0, first, order, k);
      var prev := Cell(rseg.blocks, at).prev;
      rseg.Set(x, Cell(rseg.blocks, x).(next := at, prev := prev));
      ghost var b1 := rseg.blocks;
      if prev != Null {
        rseg.Set(prev, Cell(rseg.blocks, prev).(next := x));
      } else {
        first := x;
      }
      ghost var b2 := rseg.blocks;
      rseg.Set(at, Cell(rseg.blocks, at).(prev := x));
      BeforeIsSpliced(b0, b1, b2, rseg.blocks, order, k, x);
      SpliceLinks(b0, rseg.blocks, first0, order, k, x);
      order := Inserted(order, k, x);
    }
  
    // A new segment with one new entry, not linked yet; both are zero.
    method NewSegment() returns (seg: Ref, e: Ref)
      requires Valid()
      modifies rseg, rent
      ensures PoolsValid() && WellLinked(rseg.blocks, first, order)
      ensures AllChained(rseg.blocks, rent.blocks, order, lists)
      ensures seg !in order && seg in rseg.used && InBlocks(rseg.blocks, seg) && e !in ents && e in rent.used
      ensures Cell(rseg.blocks, seg) == ZERO_SEG.(list := e)
      ensures InBlocks(rent.blocks, e) && Cell(rent.blocks, e) == ZERO_ENT
      ensures SameData(old(rseg.blocks), rseg.blocks, order) && Grown(old(rent.blocks), rent.blocks)
    {
      hide WellLinked, AllChained, Owned;
      e := rent.Get();
      seg := rseg.Get();
      ghost var grown := rseg.blocks;
      LinkedGrown(old(rseg.blocks), grown, first, order);
      SetSeg(seg, Cell(rseg.blocks, seg).(list := e));
      LinkedPutElsewhere(grown, rseg.blocks, first, order, seg, Cell(grown, seg).(list := e));
      Untouched(old(rseg.blocks), grown, rseg.blocks, order, seg, Cell(grown, seg).(list := e));
      ChainedGrown(old(rseg.blocks), rseg.blocks, old(rent.blocks), rent.blocks, order, lists);
    }

    // A segment and its entry made by NewSegment, ready to be linked in
    ghost predicate Ready(seg: Ref, e: Ref)
      reads this, rseg, rent
    {
      && PoolsValid() && WellLinked(rseg.blocks, first, order)
      && AllChained(rseg.blocks, rent.blocks, order, lists) && Owned(order, lists, owner, ents)
      && seg !in order && seg in rseg.used && InBlocks(rseg.blocks, seg) && e !in ents && e in rent.used
      && Cell(rseg.blocks, seg).list == e && InBlocks(rent.blocks, e) && Cell(rent.blocks, e).next == Null
    }

    // Link the new segment in next to `at`, or as the only one.
    method LinkIn(seg: Ref, e: Ref, at: Ref, before: bool, ghost k: nat)
      requires Ready(seg, e)
      requires if order == [] then at == Null && k == 0 else k < |order| && order[k] == at
      modifies this`first, this`order, this`lists, this`owner, this`ents, rseg`blocks
      ensures Valid() && order == Inserted(old(order), if before || old(order) == [] then k else k + 1, seg)
      ensures lists == old(lists)[seg := [e]] && owner == old(owner)[e := seg] && ents == old(ents) + [e]
      ensures forall q :: InBlocks(rseg.blocks, q) <==> InBlocks(old(rseg.blocks), q)
      ensures SameData(old(rseg.blocks), rseg.blocks, old(order)) && InBlocks(rseg.blocks, seg)
      ensures InBlocks(old(rseg.blocks), seg)
              && Cell(rseg.blocks, seg).(prev := Null, next := Null) == Cell(old(rseg.blocks), seg).(prev := Null, next := Null)
    {
      hide WellLinked, AllChained, Owned, Spliced, SameData, Inserted, Put, Distinct;
      ghost var b0, order0 := rseg.blocks, order;
      ghost var p := if before || order == [] then k else k + 1;
      LinkedInside(b0, first, order);
      if at == Null {
        NullNotLinked(b0, first, order);
        SetSeg(seg, Cell(rseg.blocks, seg).(prev := Null, next := Null));
        first := seg;
        order := Inserted(order, 0, seg);
        OneLinked(b0, rseg.blocks, seg);
      } else if before {
        SpliceBefore(seg, at, k);
        SplicedSameData(b0, rseg.blocks, order0, k, seg);
      } else {
        SpliceAfter(seg, at, k);
        SplicedSameData(b0, rseg.blocks, order0, k + 1, seg);
      }
      AllChainedInserted(b0, rseg.blocks, rent.blocks, rent.blocks, order0, p, seg, lists, e);
      OwnedNew(order0, lists, owner, ents, p, seg, e);
      lists, owner, ents := lists[seg := [e]], owner[e := seg], ents + [e];
      InsertedUsed(rseg.used, order0, p, seg);
    }

    // A new segment with one new entry, linked in next to `at` or as the only one
    method LinkNew(at: Ref, before: bool, ghost k: nat) returns (seg: Ref, e: Ref)
      requires Valid() && if order == [] then at == Null && k == 0 else k < |order| && order[k] == at
      modifies this`first, this`order, this`lists, this`owner, this`ents, rseg, rent
      ensures Valid() && seg in order && seg in lists && lists[seg] == [e] && InBlocks(rseg.blocks, seg)
      ensures var p := if before || old(order) == [] then k else k + 1;
              && order == Inserted(old(order), p, seg) && Place(order, seg) == p
              && Segs() == Inserted(old(Segs()), p, Segment(0, 0, 0, [Use(0, 0, 0)]))
    {
      hide WellLinked, AllChained, Owned, SameData, Grown, Distinct, View, SameUsage, Place;
      ghost var b0, e0, order0, lists0, owner0, ents0 := rseg.blocks, rent.blocks, order, lists, owner, ents;
      ghost var p := if before || order == [] then k else k + 1;
      seg, e := NewSegment();
      ghost var b1 := rseg.blocks;
      LinkIn(seg, e, at, before, k);
      SameDataTwice(b0, b1, rseg.blocks, order0);
      GrownUsage(e0, rent.blocks, ents0);
      ViewInserted(b0, rseg.blocks, e0, rent.blocks, order0, lists0, owner0, ents0, p, seg, e);
      LinkedDistinct(rseg.blocks, first, order);
      PlaceIs(order, p);
    }

    // add_wm
    method AddWm(at: Ref, before: bool, ghost k: nat)
      requires Valid() && k < |order| && order[k] == at
      modifies this, rseg, rent
      ensures Valid() && curr in order && curr in lists && lists[curr] == [ent] && InBlocks(rseg.blocks, curr)
      ensures var p := if before then k else k + 1;
              && order == Inserted(old(order), p, curr) && Place(order, curr) == p
              && Segs() == Inserted(old(Segs()), p, Segment(0, 0, 0, [Use(0, 0, 0)]))
    {
      hide WellLinked, AllChained, Owned, View, Place;
      curr, ent := LinkNew(at, before, k);
    }

    // Assign fields of a linked segment other than its pointers.
    method SetData(r: Ref, jid: int, startTime: int, endTime: int)
      requires Valid() && r in order && InBlocks(rseg.blocks, r)
      modifies rseg`blocks
      ensures Valid() && InBlocks(rseg.blocks, r) && InBlocks(old(rseg.blocks), r)
      ensures Cell(rseg.blocks, r).list == Cell(old(rseg.blocks), r).list
      ensures var k := Place(order, r);
              Segs() == old(Segs())[k := old(Segs())[k].(jid := jid, startTime := startTime, endTime := endTime)]
    {
      hide WellLinked, AllChained, Owned, View, Place, Put;
      ghost var b0 := rseg.blocks;
      var s := Cell(rseg.blocks, r).(jid := jid, startTime := startTime, endTime := endTime);
      SetSeg(r, s);
      PutCell(b0, rseg.blocks, r, s);
      DataPut(b0, rseg.blocks, rent.blocks, first, order, lists, r, s);
      LinkedDistinct(b0, first, order);
      ChainInEnts(order, lists, owner, ents, r);
      ViewPutSeg(b0, rseg.blocks, rent.blocks, order, lists, Place(order, r), s);
    }

    // Assign fields of entry a of the chain of segment k other than its pointer.
    method SetUsage(r: Ref, uid: int, prid: int, stime: nat, ghost k: nat, ghost a: nat)
      requires Valid() && k < |order| && order[k] in lists && a < |lists[order[k]]| && lists[order[k]][a] == r
      modifies rent`blocks
      ensures Valid() && a < |old(Segs())[k].uses|
      ensures Segs() == old(Segs())[k := old(Segs())[k].(uses := old(Segs())[k].uses[a := Use(uid, prid, stime)])]
    {
      hide WellLinked, AllChained, Owned, Put, View;
      ChainInBlocks(rseg.blocks, rent.blocks, order, lists, owner, ents, k);
      ghost var e0 := rent.blocks;
      EntUsed(ents, r, rent.used);
      var c := Cell(rent.blocks, r).(uid := uid, prid := prid, stime := stime);
      rent.Set(r, c);
      UsagePut(e0, rent.blocks, rseg.blocks, order, lists, r, c);
      LinkedDistinct(rseg.blocks, first, order);
      ViewPutEnt(rseg.blocks, e0, rent.blocks, order, lists, owner, ents, k, a, c);
    }

    // A new cell behind the last one of a chain
    method ChainOn(last: Ref) returns (e: Ref, ghost e1: Blocks<Ent>, ghost e2: Blocks<Ent>)
      requires rent.Valid() && rent.zero == ZERO_ENT && last in rent.used
      requires InBlocks(rent.blocks, last) && Cell(rent.blocks, last).next == Null
      modifies rent
      ensures rent.Valid() && e !in old(rent.used) && rent.used == old(rent.used) + {e}
      ensures Grown(old(rent.blocks), e1) && InBlocks(e1, e) && Cell(e1, e) == ZERO_ENT
      ensures e2 == Put(e1, e, Cell(e1, e).(next := Null)) && InBlocks(e2, last)
      ensures rent.blocks == Put(e2, last, Cell(e2, last).(next := e))
    {
      hide Put;
      e := rent.Get();
      e1 := rent.blocks;
      rent.Set(e, Cell(rent.blocks, e).(next := Cell(rent.blocks, last).next));
      e2 := rent.blocks;
      rent.Set(last, Cell(rent.blocks, last).(next := e));
    }

    // Add an entry to the end of the chain of segment k.
    method AddEnt(last: Ref, ghost k: nat) returns (e: Ref)
      requires Valid() && k < |order| && order[k] in lists && lists[order[k]] != []
      requires last == lists[order[k]][|lists[order[k]]| - 1]
      modifies this`lists, this`owner, this`ents, rent
      ensures Valid() && lists == old(lists)[order[k] := old(lists)[order[k]] + [e]]
      ensures k < |old(Segs())| && Segs() == WithUse(old(Segs()), k, Use(0, 0, 0))
    {
      hide WellLinked, AllChained, Owned, Put, View, Distinct, Grown;
      LastOfChain(rseg.blocks, rent.blocks, order, lists, owner, ents, k);
      EntUsed(ents, last, rent.used);
      ghost var e0 := rent.blocks;
      ghost var e1, e2;
      e, e1, e2 := ChainOn(last);
      NewOne(ents, e, old(rent.used));
      LinkedDistinct(rseg.blocks, first, order);
      EntAdded(e0, e1, e2, rent.blocks, rseg.blocks, order, lists, owner, ents, k, e);
      lists, owner, ents := lists[order[k] := lists[order[k]] + [e]], owner[e := order[k]], ents + [e];
    }

    // ---- Finding the place of a record ----

    // The segment search of find_wm
    method FindSegment(jid: int, btime: int) returns (found: bool, before: bool, at: Ref, ghost k: nat)
      requires Valid() && Positioned()
      ensures k < |order| && order[k] == at && InBlocks(rseg.blocks, at)
      ensures FindSeg(Segs(), StartPlace(State(), btime), jid, btime)
              == if found then Same(k) else if before then Ahead(k) else Behind(k)
    {
      hide AllChained, Owned, PrevOf, Distinct, WellLinked, Place, View, FindSeg;
      LinkedInside(rseg.blocks, first, order);
      FirstIs(rseg.blocks, first, order);
      NullNotLinked(rseg.blocks, first, order);
      ghost var v := Segs();
      ghost var k0: nat := StartPlace(State(), btime);
      var c := curr;
      PlaceOf(order, curr);
      ViewTimes(rseg.blocks, rent.blocks, order, lists, owner, ents, Place(order, curr));
      if btime < Cell(rseg.blocks, curr).startTime {
        c := first;
      }
      k := k0;
      var prev := Null;
      found, before, at := false, false, Null;
      while c != Null
        invariant k0 <= k <= |order| && c == NextOf(order, k - 1)
        invariant if k == k0 then prev == Null && k < |order| else prev == order[k - 1]
        invariant FindSeg(v, k0, jid, btime) == if k < |order| then FindSeg(v, k, jid, btime) else Behind(k - 1)
        decreases |order| - k
      {
        LinksAt(rseg.blocks, first, order, k);
        ViewTimes(rseg.blocks, rent.blocks, order, lists, owner, ents, k);
        FindSegStep(v, k, jid, btime);
        if k + 1 < |order| {
          ViewTimes(rseg.blocks, rent.blocks, order, lists, owner, ents, k + 1);
        }
        var s := Cell(rseg.blocks, c);
        var nextJid := if s.next == Null then NO_NEXT_JID else Cell(rseg.blocks, s.next).jid;
        if jid == s.jid {
          return true, false, c, k;
        }
        if jid != nextJid && btime <= s.startTime {
          return false, true, c, k;
        }
        prev := c;
        c := s.next;
        k := k + 1;
      }
      at := prev;
      k := k - 1;
    }

    // The first entry of the current segment that fits this uid and prid; without one, the end of the chain
    method SearchEntry(uid: int, prid: int) returns (c: Ref, prev: Ref, ghost a: nat)
      requires Valid() && curr in order && curr in lists && InBlocks(rseg.blocks, curr)
      requires ent == Cell(rseg.blocks, curr).list
      ensures a == FirstFit(Segs()[Place(order, curr)].uses, 0, uid, prid) && |Segs()[Place(order, curr)].uses| == |lists[curr]|
      ensures a <= |lists[curr]| && if a < |lists[curr]| then c == lists[curr][a] != Null
                                    else c == Null && lists[curr] != [] && prev == lists[curr][|lists[curr]| - 1]
    {
      hide WellLinked, AllChained, Owned, Chained, View, Place;
      ChainOf(rseg.blocks, rent.blocks, order, lists, curr);
      ghost var chain := lists[curr];
      PlaceOf(order, curr);
      ViewAt(rseg.blocks, rent.blocks, order, lists, Place(order, curr));
      ghost var uses := Segs()[Place(order, curr)].uses;
      ChainHead(rent.blocks, ent, chain);
      c, prev := ent, Null;
      a := 0;
      while c != Null
        invariant a <= |chain| && c == NextOf(chain, a - 1) && chain != []
        invariant if a == 0 then prev == Null && c != Null else prev == chain[a - 1]
        invariant FirstFit(uses, 0, uid, prid) == FirstFit(uses, a, uid, prid)
        decreases |chain| - a
      {
        ChainAt(rent.blocks, Cell(rseg.blocks, curr).list, chain, a);
        var e := Cell(rent.blocks, c);
        assert uses[a] == UseOf(rent.blocks, chain[a]);
        if e.uid == uid && (e.prid == DEFAULT_PRID || prid == DEFAULT_PRID || e.prid == prid) {
          return;
        }
        prev := c;
        c := e.next;
        a := a + 1;
      }
    }

    // The entry part of find_wm, in the current segment
    method FindEntry(uid: int, prid: int)
      requires Valid() && curr in order && curr in lists && InBlocks(rseg.blocks, curr)
      requires ent == Cell(rseg.blocks, curr).list
      modifies this`ent, this`lists, this`owner, this`ents, rent
      ensures Valid() && curr in lists
      ensures var k := Place(order, curr);
              var a := FirstFit(old(Segs())[k].uses, 0, uid, prid);
              && a < |lists[curr]| && lists[curr][a] == ent
              && Segs() == old(Segs())[k := old(Segs())[k].(uses := FindUse(old(Segs())[k].uses, uid, prid))]
    {
      hide WellLinked, AllChained, Owned, View, Place, FirstFit;
      PlaceOf(order, curr);
      ghost var k, v := Place(order, curr), Segs();
      var c, prev;
      ghost var a;
      c, prev, a := SearchEntry(uid, prid);
      if c != Null {
        ent := c;
        CellUse(rseg.blocks, rent.blocks, order, lists, owner, ents, k, a);
        var e := Cell(rent.blocks, c);
        if e.prid == DEFAULT_PRID {
          SetUsage(c, uid, prid, e.stime, k, a);
          FoundUse(v[k].uses, a, uid, prid);
        } else {
          FoundUse(v[k].uses, a, uid, prid);
          assert v[k := v[k].(uses := v[k].uses)] == v;
        }
      } else {
        ent := AddEnt(prev, k);
        SetUsage(ent, uid, prid, 0, k, a);
        NewUse(v[k].uses, a, uid, prid);
      }
    }

    // What a segment that is still zero and its entry say
    method Fill(seg: Ref, e: Ref, jid: int, startTime: int, endTime: int, u: Use, ghost p: nat, ghost v: seq<Segment>)
      requires Valid() && seg in order && Place(order, seg) == p && seg in lists && lists[seg] == [e] && InBlocks(rseg.blocks, seg)
      requires p <= |v| && Segs() == Inserted(v, p, Segment(0, 0, 0, [Use(0, 0, 0)]))
      modifies rseg`blocks, rent`blocks
      ensures Valid() && Segs() == Inserted(v, p, Segment(jid, startTime, endTime, [u]))
    {
      hide WellLinked, AllChained, Owned, View, Place;
      PlaceOf(order, seg);
      SetData(seg, jid, startTime, endTime);
      InsertedThenSet(v, p, Segment(0, 0, 0, [Use(0, 0, 0)]), Segment(jid, startTime, endTime, [Use(0, 0, 0)]));
      SetUsage(e, u.uid, u.prid, u.stime, p, 0);
      InsertedThenSet(v, p, Segment(jid, startTime, endTime, [Use(0, 0, 0)]), Segment(jid, startTime, endTime, [u]));
      assert [Use(0, 0, 0)][0 := u] == [u];
    }

    // A segment for this jid, with an entry for this uid and prid, next to `at`
    method NewWm(at: Ref, before: bool, ghost k: nat, prid: int, jid: int, uid: int, btime: int, etime: int)
      requires Valid() && k < |order| && order[k] == at
      modifies this, rseg, rent
      ensures Valid() && Positioned() && lists[curr][0] == ent
      ensures var p := if before then k else k + 1;
              && Place(order, curr) == p && p <= |old(Segs())|
              && Segs() == Inserted(old(Segs()), p, Segment(jid, btime, etime, [Use(uid, prid, 0)]))
    {
      hide WellLinked, AllChained, Owned, View, Place;
      ghost var v := Segs();
      AddWm(at, before, k);
      Fill(curr, ent, jid, btime, etime, Use(uid, prid, 0), if before then k else k + 1, v);
    }

    // The segment that was found, started earlier if need be, becomes the current one.
    method UseSegment(at: Ref, btime: int)
      requires Valid() && at in order && InBlocks(rseg.blocks, at)
      modifies this`curr, this`ent, rseg`blocks
      ensures Valid() && curr == at && curr in lists && InBlocks(rseg.blocks, curr) && ent == Cell(rseg.blocks, curr).list
      ensures var k := Place(order, at);
              var s := old(Segs())[k];
              Segs() == old(Segs())[k := s.(startTime := if btime < s.startTime then btime else s.startTime)]
    {
      hide WellLinked, AllChained, Owned, View, Place;
      ghost var k, v := Place(order, at), Segs();
      PlaceOf(order, at);
      ViewTimes(rseg.blocks, rent.blocks, order, lists, owner, ents, k);
      var s := Cell(rseg.blocks, at);
      if btime < s.startTime {
        SetData(at, s.jid, btime, s.endTime);
        assert v[k].(jid := s.jid, startTime := btime, endTime := s.endTime) == v[k].(startTime := btime);
      } else {
        assert v[k := v[k].(startTime := v[k].startTime)] == v;
      }
      curr := at;
      ent := Cell(rseg.blocks, at).list;
      ChainInEnts(order, lists, owner, ents, curr);
    }

    // find_wm: the segment of this jid and the entry of this uid and prid that the specification says become current.
    method FindWm(prid: int, jid: int, uid: int, btime: int, etime: int)
      requires Valid() && Positioned()
      modifies this, rseg, rent
      ensures Valid() && Positioned()
      ensures State() == RequestSpec.FindWm(old(State()), prid, jid, uid, btime, etime)
      ensures var a := UseAt(old(State()), prid, jid, uid, btime); a < |lists[curr]| && lists[curr][a] == ent
    {
      hide WellLinked, AllChained, Owned, Inserted, Segs, Place, FindUse, FirstFit, FindSeg, StartPlace;
      ghost var v := Segs();
      var found, before, at;
      ghost var k;
      found, before, at, k := FindSegment(jid, btime);
      LinkedDistinct(rseg.blocks, first, order);
      PlaceIs(order, k);
      if found {
        UseSegment(at, btime);
        FindEntry(uid, prid);
      } else {
        NewWm(at, before, k, prid, jid, uid, btime, etime);
      }
    }

    // wm_process
    method WmProcess(p: Proc)
      requires Valid() && Positioned()
      modifies this, rseg, rent
      ensures Valid() && Positioned()
      ensures State() == Process(old(State()), p)
    {
      hide WellLinked, AllChained, Owned, Segs, RequestSpec.FindWm, UseAt, Place;
      if p.Cfg? {
        return;
      }
      var prid := if p.Csa? then p.prid else DEFAULT_PRID;
      var end := if p.Soj? then p.btime else p.etime;
      FindWm(prid, p.jid, p.uid, p.btime, end);
      AddUsage(p, end, UseAt(old(State()), prid, p.jid, p.uid, p.btime));
    }

    // The end time of the current segment, and the stime in the current entry
    method AddUsage(p: Proc, end: int, ghost a: nat)
      requires Valid() && Positioned() && !p.Cfg? && end == EndOf(p) && a < |lists[curr]| && lists[curr][a] == ent
      modifies rseg`blocks, rent`blocks
      ensures Valid() && Positioned()
      ensures var k := Place(order, curr);
              a < |old(Segs())[k].uses| && Segs() == old(Segs())[k := Counted(old(Segs())[k], a, p)]
    {
      hide WellLinked, AllChained, Owned, View, Place;
      PlaceOf(order, curr);
      ghost var k, v := Place(order, curr), Segs();
      ChainInEnts(order, lists, owner, ents, curr);
      ViewTimes(rseg.blocks, rent.blocks, order, lists, owner, ents, k);
      CellUse(rseg.blocks, rent.blocks, order, lists, owner, ents, k, a);
      var s, e := Cell(rseg.blocks, curr), Cell(rent.blocks, ent);
      if p.Eoj? || (p.Csa? && s.endTime < end) {
        SetData(curr, s.jid, s.startTime, end);
      }
      if p.Csa? {
        SetUsage(ent, e.uid, e.prid, e.stime + p.stime, k, a);
      }
      CountedIs(v[k], a, p);
    }

    // ---- The first phase of do_wm ----

    // Search backward for the last segment that starts no later.
    method FindPlace(start: int, last: Ref) returns (at: Ref, ghost k: nat)
      requires Valid() && order != [] && last == order[|order| - 1]
      requires forall i :: 0 <= i < |order| ==> InBlocks(rseg.blocks, order[i])
      ensures at == Null ==> k == 0 && forall j :: 0 <= j < |order| ==> start < Cell(rseg.blocks, order[j]).startTime
      ensures at != Null ==> k < |order| && order[k] == at && Cell(rseg.blocks, at).startTime <= start
                             && forall j :: k < j < |order| ==> start < Cell(rseg.blocks, order[j]).startTime
    {
      hide AllChained, Owned, WellLinked, Distinct, NextOf;
      at := last;
      ghost var n := |order|;
      while at != Null && start < Cell(rseg.blocks, at).startTime
        invariant 0 <= n <= |order| && at == PrevOf(order, n)
        invariant at != Null ==> n > 0
        invariant n > 0 ==> at != Null && InBlocks(rseg.blocks, at)
        invariant forall j :: n <= j < |order| ==> start < Cell(rseg.blocks, order[j]).startTime
        decreases n
      {
        LinksAt(rseg.blocks, first, order, n - 1);
        at := Cell(rseg.blocks, at).prev;
        n := n - 1;
      }
      k := if n > 0 then n - 1 else 0;
    }

    // Where a new segment goes: behind or, at the front, before segment `at`
    method Where(start: int, last: Ref) returns (at: Ref, front: bool, ghost k: nat, ghost p: nat)
      requires Valid() && forall i :: 0 <= i < |order| ==> InBlocks(rseg.blocks, order[i])
      requires if order == [] then last == Null else last == order[|order| - 1]
      ensures if order == [] then at == Null && front && k == p == 0
              else k < |order| && order[k] == at && p == (if front then 0 else k + 1) && (front ==> k == 0)
      ensures p <= |order| && (order != [] && !front ==> (at == last <==> p == |order|))
      ensures p == PlaceFor(Segs(), |order|, start)
    {
      hide WellLinked, AllChained, Owned, View, PlaceFor;
      StartTimes(rseg.blocks, rent.blocks, order, lists, owner, ents);
      at, front, k, p := Null, true, 0, 0;
      if last != Null {
        NullNotLinked(rseg.blocks, first, order);
        FirstIs(rseg.blocks, first, order);
        at, k := FindPlace(start, last);
        if at != Null {
          front, p := false, k + 1;
          LastPlace(rseg.blocks, first, order, k, at, last);
        } else {
          at := first;
        }
      } else {
        NullNotLinked(rseg.blocks, first, order);
      }
      PlaceForIs(Segs(), |order|, start, p);
    }

    // Link in a new segment behind all that start no later.
    method LinkByTime(start: int, last: Ref) returns (seg: Ref, e: Ref, last1: Ref, ghost p: nat)
      requires Valid() && if order == [] then last == Null else last == order[|order| - 1]
      modifies this`first, this`order, this`lists, this`owner, this`ents, rseg, rent
      ensures Valid() && p == PlaceFor(old(Segs()), |old(Segs())|, start) && seg in order && Place(order, seg) == p
      ensures last1 == order[|order| - 1] && seg in lists && lists[seg] == [e] && InBlocks(rseg.blocks, seg)
      ensures Segs() == Inserted(old(Segs()), p, Segment(0, 0, 0, [Use(0, 0, 0)]))
    {
      hide WellLinked, AllChained, Owned, View, Place, PlaceFor, Inserted, Distinct;
      LinkedInside(rseg.blocks, first, order);
      NullNotLinked(rseg.blocks, first, order);
      var at, front;
      ghost var k;
      at, front, k, p := Where(start, last);
      ghost var order0 := order;
      seg, e := LinkNew(at, front, k);
      last1 := if last == Null || (!front && at == last) then seg else last;
      LastInserted(order0, p, seg);
    }

    // Link in and fill in the segment of a record.
    method AddRecord(wm: Wm, last: Ref) returns (last1: Ref)
      requires Valid() && if order == [] then last == Null else last == order[|order| - 1]
      modifies this`first, this`order, this`lists, this`owner, this`ents, rseg, rent
      ensures Valid() && order != [] && last1 == order[|order| - 1]
      ensures Segs() == WithSegment(old(Segs()), wm)
    {
      hide WellLinked, AllChained, Owned, Put, View, Place, PlaceFor;
      ghost var v := Segs();
      var seg, e;
      ghost var p;
      seg, e, last1, p := LinkByTime(wm.startTime, last);
      Fill(seg, e, wm.jid, wm.startTime, wm.startTime, Use(wm.uid, wm.prid, wm.stime), p, v);
    }

    // First phase: the segments of the workload management records
    method Gather(wms: seq<Wm>)
      requires Valid() && order == [] && ents == []
      modifies this`first, this`order, this`lists, this`owner, this`ents, rseg, rent
      ensures Valid() && Segs() == RequestSpec.Gather(wms)
    {
      hide WellLinked, AllChained, Owned, WithSegment, View;
      var last := Null;
      for i := 0 to |wms|
        invariant Valid() && Segs() == RequestSpec.Gather(wms[..i])
        invariant if order == [] then last == Null else last == order[|order| - 1]
      {
        last := AddRecord(wms[i], last);
        assert wms[..i + 1][..i] == wms[..i];
      }
      assert wms[..|wms|] == wms;
    }

    // Back to the first segment and its first entry
    method Rewind()
      requires Valid() && order != []
      modifies this`curr, this`ent
      ensures Valid() && Positioned() && State() == Req(old(Segs()), 0)
    {
      hide WellLinked, AllChained, Owned, View, Place;
      LinkedInside(rseg.blocks, first, order);
      FirstIs(rseg.blocks, first, order);
      LinkedDistinct(rseg.blocks, first, order);
      PlaceIs(order, 0);
      curr := first;
      ent := Cell(rseg.blocks, curr).list;
      ChainOf(rseg.blocks, rent.blocks, order, lists, curr);
      HeadInChain(rent.blocks, ent, lists[curr]);
    }

    method ProcessAll(ps: seq<Proc>)
      requires Valid() && Positioned()
      modifies this, rseg, rent
      ensures Valid() && Positioned() && State() == RequestSpec.ProcessAll(old(State()), ps)
    {
      hide WellLinked, AllChained, Owned, Segs, Place, Process;
      ghost var r0 := State();
      for i := 0 to |ps|
        invariant Valid() && Positioned() && State() == RequestSpec.ProcessAll(r0, ps[..i])
      {
        WmProcess(ps[i]);
        assert ps[..i + 1][..i] == ps[..i];
      }
      assert ps[..|ps|] == ps;
    }

    // do_wm up to its report: the list stays well linked and acyclic, every entry stays in exactly one chain, and the
    // cells say what the specification does.
    method DoWm(wms: seq<Wm>, jobRecs: seq<Proc>, procs: seq<Proc>)
      requires Valid() && order == [] && ents == [] && wms != []
      modifies this, rseg, rent
      ensures Valid() && Segs() == RequestSpec.DoWm(wms, jobRecs, procs).segs
    {
      hide WellLinked, AllChained, Owned, View, RequestSpec.ProcessAll, Place;
      Gather(wms);
      Rewind();
      ProcessAll(jobRecs);
      Rewind();
      ProcessAll(procs);
    }

    // clean_wm, after the report: all cells are free again, and zero.
    method CleanWm()
      requires Valid() && rseg.blocks != [] && rent.blocks != []
      modifies this, rseg, rent
      ensures Valid() && order == [] && ents == [] && rseg.used == {} && rent.used == {}
    {
      hide WellLinked, AllChained, Owned;
      rent.Clean();
      rseg.Clean();
      NothingLinked(rseg.blocks, rent.blocks);
      first, curr, ent := Null, Null, Null;
      order, lists, owner, ents := [], map[], map[], [];
    }
  }

  lemma NothingLinked(segs: Blocks<Seg>, ents: Blocks<Ent>)
    ensures WellLinked(segs, Null, []) && AllChained(segs, ents, [], map[]) && Owned([], map[], map[], [])
  {
  }

  lemma GrownUsage(before: Blocks<Ent>, after: Blocks<Ent>, ents: seq<Ref>)
    requires Grown(before, after)
    ensures SameUsage(before, after, ents)
  {
  }

  lemma HeadInChain(ents: Blocks<Ent>, head: Ref, list: seq<Ref>)
    requires Chained(ents, head, list)
    ensures head in list
  {
  }

  lemma FirstIs(segs: Blocks<Seg>, first: Ref, order: seq<Ref>)
    requires WellLinked(segs, first, order)
    ensures order != [] ==> first == order[0]
  {
  }

  lemma LastPlace(segs: Blocks<Seg>, first: Ref, order: seq<Ref>, k: nat, at: Ref, last: Ref)
    requires WellLinked(segs, first, order) && k < |order| && order[k] == at && last == order[|order| - 1]
    ensures at == last <==> k == |order| - 1
  {
  }

  // What segment k of the view and entry a of its chain say is in their cells.
  lemma ViewTimes(segs: Blocks<Seg>, ents: Blocks<Ent>, order: seq<Ref>, lists: map<Ref, seq<Ref>>, owner: map<Ref, Ref>,
                  all: seq<Ref>, k: nat)
    requires AllChained(segs, ents, order, lists) && Owned(order, lists, owner, all) && k < |order|
    ensures InBlocks(segs, order[k]) && order[k] in lists && k < |View(segs, ents, order, lists)|
    ensures var s, c := View(segs, ents, order, lists)[k], Cell(segs, order[k]);
            s.jid == c.jid && s.startTime == c.startTime && s.endTime == c.endTime && |s.uses| == |lists[order[k]]|
  {
    hide Chained;
  }

  lemma CellUse(segs: Blocks<Seg>, ents: Blocks<Ent>, order: seq<Ref>, lists: map<Ref, seq<Ref>>, owner: map<Ref, Ref>,
                all: seq<Ref>, k: nat, a: nat)
    requires AllChained(segs, ents, order, lists) && Owned(order, lists, owner, all) && k < |order|
    requires order[k] in lists && a < |lists[order[k]]|
    ensures k < |View(segs, ents, order, lists)| && a < |View(segs, ents, order, lists)[k].uses|
    ensures InBlocks(ents, lists[order[k]][a])
    ensures var c := Cell(ents, lists[order[k]][a]); View(segs, ents, order, lists)[k].uses[a] == Use(c.uid, c.prid, c.stime)
  {
    hide Owned, Chained, AllChained;
    ChainInBlocks(segs, ents, order, lists, owner, all, k);
  }

  lemma StartTimes(segs: Blocks<Seg>, ents: Blocks<Ent>, order: seq<Ref>, lists: map<Ref, seq<Ref>>, owner: map<Ref, Ref>,
                   all: seq<Ref>)
    requires AllChained(segs, ents, order, lists) && Owned(order, lists, owner, all)
    ensures |View(segs, ents, order, lists)| == |order|
    ensures forall k :: 0 <= k < |order| ==>
              InBlocks(segs, order[k]) && View(segs, ents, order, lists)[k].startTime == Cell(segs, order[k]).startTime
  {
    hide AllChained, Owned, View;
    ViewSize(segs, ents, order, lists);
    forall k | 0 <= k < |order|
      ensures InBlocks(segs, order[k]) && View(segs, ents, order, lists)[k].startTime == Cell(segs, order[k]).startTime
    {
      ViewTimes(segs, ents, order, lists, owner, all, k);
    }
  }

  lemma FindSegStep(segs: seq<Segment>, k: nat, jid: int, btime: int)
    requires k < |segs|
    ensures var nextJid := if k + 1 < |segs| then segs[k + 1].jid else NO_NEXT_JID;
            FindSeg(segs, k, jid, btime)
            == if segs[k].jid == jid then Same(k)
               else if jid != nextJid && btime <= segs[k].startTime then Ahead(k)
               else if k + 1 == |segs| then Behind(k)
               else FindSeg(segs, k + 1, jid, btime)
  {
  }

  // There is one place behind all that start no later and in front of the others.
  lemma {:induction false} PlaceForIs(segs: seq<Segment>, n: nat, start: int, p: nat)
    requires p <= n <= |segs| && (p > 0 ==> segs[p - 1].startTime <= start) && forall j :: p <= j < n ==> start < segs[j].startTime
    ensures PlaceFor(segs, n, start) == p
    decreases n
  {
    if p < n {
      PlaceForIs(segs, n - 1, start, p);
    }
  }

  lemma FoundUse(uses: seq<Use>, a: nat, uid: int, prid: int)
    requires a < |uses| && a == FirstFit(uses, 0, uid, prid)
    ensures uses[a].uid == uid
    ensures FindUse(uses, uid, prid)
            == if uses[a].prid == DEFAULT_PRID then uses[a := Use(uid, prid, uses[a].stime)] else uses
  {
  }

  lemma NewUse(uses: seq<Use>, a: nat, uid: int, prid: int)
    requires a == |uses| == FirstFit(uses, 0, uid, prid)
    ensures FindUse(uses, uid, prid) == (uses + [Use(0, 0, 0)])[a := Use(uid, prid, 0)]
  {
  }

  lemma CountedIs(s: Segment, a: nat, p: Proc)
    requires a < |s.uses| && !p.Cfg?
    ensures var t := if p.Eoj? || (p.Csa? && s.endTime < EndOf(p)) then s.(endTime := EndOf(p)) else s;
            Counted(s, a, p)
            == if p.Csa? then t.(uses := t.uses[a := Use(t.uses[a].uid, t.uses[a].prid, t.uses[a].stime + p.stime)]) else t
  {
    assert s.uses[a := s.uses[a].(stime := s.uses[a].stime + 0)] == s.uses;
  }

  lemma LastInserted(order: seq<Ref>, p: nat, x: Ref)
    requires p <= |order|
    ensures var all := Inserted(order, p, x);
            |all| == |order| + 1 && all[|order|] == if p == |order| then x else order[|order| - 1]
  {
  }

  lemma NewOne(ents: seq<Ref>, r: Ref, used: set<Ref>)
    requires r !in used && forall i :: 0 <= i < |ents| ==> ents[i] in used
    ensures r !in ents
  {
  }

  lemma EntUsed(ents: seq<Ref>, r: Ref, used: set<Ref>)
    requires r in ents && forall i :: 0 <= i < |ents| ==> ents[i] in used
    ensures r in used
  {
  }

  lemma PutCell(b0: Blocks<Seg>, b1: Blocks<Seg>, r: Ref, s: Seg)
    requires InBlocks(b0, r) && b1 == Put(b0, r, s)
    ensures InBlocks(b1, r) && Cell(b1, r) == s
  {
  }

  lemma LinkedDistinct(segs: Blocks<Seg>, first: Ref, order: seq<Ref>)
    requires WellLinked(segs, first, order)
    ensures Distinct(order)
  {
  }

  lemma PlaceOf(order: seq<Ref>, x: Ref)
    requires x in order
    ensures Place(order, x) < |order| && order[Place(order, x)] == x
  {
  }

  // ---- Details ----

  lemma OnlyHere(refs: seq<Ref>, k: nat)
    requires Distinct(refs) && k < |refs|
    ensures forall i :: 0 <= i < |refs| && i != k ==> refs[i] != refs[k]
  {
  }

  ghost function Place(order: seq<Ref>, x: Ref): (k: nat)
    requires x in order
    ensures k < |order| && order[k] == x
  {
    if order[0] == x then 0 else 1 + Place(order[1..], x)
  }

  lemma ChainHead(ents: Blocks<Ent>, head: Ref, list: seq<Ref>)
    requires Chained(ents, head, list)
    ensures head == NextOf(list, -1) != Null
  {
  }

  lemma ChainAt(ents: Blocks<Ent>, head: Ref, list: seq<Ref>, a: nat)
    requires a <= |list| && Chained(ents, head, list) && NextOf(list, a - 1) != Null
    ensures a < |list| && InBlocks(ents, list[a]) && Cell(ents, list[a]).next == NextOf(list, a)
    ensures a + 1 < |list| ==> NextOf(list, a) != Null
  {
  }

  lemma SameDataTwice(b0: Blocks<Seg>, b1: Blocks<Seg>, b2: Blocks<Seg>, order: seq<Ref>)
    requires SameData(b0, b1, order) && SameData(b1, b2, order)
    ensures SameData(b0, b2, order)
  {
  }

  lemma DataPut(b0: Blocks<Seg>, b1: Blocks<Seg>, ents: Blocks<Ent>, first: Ref, order: seq<Ref>, lists: map<Ref, seq<Ref>>,
                r: Ref, s: Seg)
    requires WellLinked(b0, first, order) && AllChained(b0, ents, order, lists) && InBlocks(b0, r) && b1 == Put(b0, r, s)
    requires var c := Cell(b0, r); s.prev == c.prev && s.next == c.next && s.list == c.list
    ensures WellLinked(b1, first, order) && AllChained(b1, ents, order, lists)
  {
    hide Put, Chained, PrevOf, NextOf, Distinct;
  }

  lemma UsagePut(e0: Blocks<Ent>, e1: Blocks<Ent>, segs: Blocks<Seg>, order: seq<Ref>, lists: map<Ref, seq<Ref>>, r: Ref, c: Ent)
    requires AllChained(segs, e0, order, lists) && InBlocks(e0, r) && e1 == Put(e0, r, c) && c.next == Cell(e0, r).next
    ensures AllChained(segs, e1, order, lists)
  {
    hide Put, Chained;
    forall k | 0 <= k < |order|
      ensures Chained(e1, Cell(segs, order[k]).list, lists[order[k]])
    {
      ChainKept(e0, e1, Cell(segs, order[k]).list, lists[order[k]]);
    }
  }

  lemma ChainInEnts(order: seq<Ref>, lists: map<Ref, seq<Ref>>, owner: map<Ref, Ref>, ents: seq<Ref>, s: Ref)
    requires Owned(order, lists, owner, ents) && s in order
    ensures s in lists && lists[s] != [] && Distinct(lists[s])
    ensures forall a :: 0 <= a < |lists[s]| ==> lists[s][a] in ents && lists[s][a] in owner && owner[lists[s][a]] == s
  {
    if k :| 0 <= k < |order| && order[k] == s {
      assert order[k] in lists;
    }
  }

  lemma ChainOf(segs: Blocks<Seg>, ents: Blocks<Ent>, order: seq<Ref>, lists: map<Ref, seq<Ref>>, s: Ref)
    requires AllChained(segs, ents, order, lists) && s in order
    ensures s in lists && InBlocks(segs, s) && Chained(ents, Cell(segs, s).list, lists[s])
  {
  }

  lemma LastNext(segs: Blocks<Seg>, ents: Blocks<Ent>, order: seq<Ref>, lists: map<Ref, seq<Ref>>, s: Ref)
    requires AllChained(segs, ents, order, lists) && s in order && s in lists && lists[s] != []
    ensures var last := lists[s][|lists[s]| - 1]; InBlocks(ents, last) && Cell(ents, last).next == Null
  {
    ChainOf(segs, ents, order, lists, s);
  }

  // The pointer assignments that add entry e to the chain of segment s
  lemma MoreChained(e0: Blocks<Ent>, e1: Blocks<Ent>, e2: Blocks<Ent>, e3: Blocks<Ent>, segs: Blocks<Seg>, order: seq<Ref>,
                    lists: map<Ref, seq<Ref>>, owner: map<Ref, Ref>, ents: seq<Ref>, s: Ref, e: Ref)
    requires AllChained(segs, e0, order, lists) && Owned(order, lists, owner, ents)
    requires s in order && s in lists && lists[s] != [] && e !in ents && Grown(e0, e1)
    requires InBlocks(e1, e) && e2 == Put(e1, e, Cell(e1, e).(next := Null))
    requires var last := lists[s][|lists[s]| - 1];
             InBlocks(e0, last) && InBlocks(e2, last) && e3 == Put(e2, last, Cell(e2, last).(next := e))
    ensures AllChained(segs, e3, order, lists[s := lists[s] + [e]])
    ensures forall q :: q in ents && InBlocks(e0, q) ==> InBlocks(e3, q) && Cell(e3, q).(next := Null) == Cell(e0, q).(next := Null)
    ensures Cell(e3, e) == Cell(e1, e).(next := Null)
  {
    hide Put, Chained, Owned, AllChained;
    ChainInEnts(order, lists, owner, ents, s);
    var last := lists[s][|lists[s]| - 1];
    assert last in ents && last != e;
    var l := lists[s := lists[s] + [e]];
    forall k | 0 <= k < |order|
      ensures InBlocks(segs, order[k]) && order[k] in l && Chained(e3, Cell(segs, order[k]).list, l[order[k]])
    {
      ChainOf(segs, e0, order, lists, order[k]);
      ChainInEnts(order, lists, owner, ents, order[k]);
      if order[k] == s {
        ChainEnd(e0, e3, Cell(segs, s).list, lists[s], last, e);
      } else {
        OtherChain(e0, e3, Cell(segs, order[k]).list, lists[order[k]], last, e);
      }
    }
    assert AllChained(segs, e3, order, l) by {
      AllChainedFrom(segs, e3, order, l);
    }
  }

  // The last entry of the chain of segment k
  lemma LastOfChain(segs: Blocks<Seg>, ents: Blocks<Ent>, order: seq<Ref>, lists: map<Ref, seq<Ref>>, owner: map<Ref, Ref>,
                    all: seq<Ref>, k: nat)
    requires AllChained(segs, ents, order, lists) && Owned(order, lists, owner, all) && k < |order|
    ensures order[k] in lists && lists[order[k]] != []
    ensures var last := lists[order[k]][|lists[order[k]]| - 1];
            last in all && InBlocks(ents, last) && Cell(ents, last).next == Null
  {
    hide AllChained, Owned;
    assert order[k] in order;
    ChainInEnts(order, lists, owner, all, order[k]);
    LastNext(segs, ents, order, lists, order[k]);
  }

  // The pointer assignments that add entry e to the chain of segment k, and what the cells say then
  lemma EntAdded(e0: Blocks<Ent>, e1: Blocks<Ent>, e2: Blocks<Ent>, e3: Blocks<Ent>, segs: Blocks<Seg>, order: seq<Ref>,
                 lists: map<Ref, seq<Ref>>, owner: map<Ref, Ref>, ents: seq<Ref>, k: nat, e: Ref)
    requires AllChained(segs, e0, order, lists) && Owned(order, lists, owner, ents) && Distinct(order) && k < |order|
    requires order[k] in lists && lists[order[k]] != [] && e !in ents && Grown(e0, e1)
    requires InBlocks(e1, e) && Cell(e1, e) == ZERO_ENT && e2 == Put(e1, e, Cell(e1, e).(next := Null))
    requires var last := lists[order[k]][|lists[order[k]]| - 1];
             InBlocks(e0, last) && InBlocks(e2, last) && e3 == Put(e2, last, Cell(e2, last).(next := e))
    ensures var s := order[k];
            var l := lists[s := lists[s] + [e]];
            var v := View(segs, e0, order, lists);
            && AllChained(segs, e3, order, l) && Owned(order, l, owner[e := s], ents + [e])
            && k < |v| && View(segs, e3, order, l) == WithUse(v, k, Use(0, 0, 0))
  {
    hide AllChained, Owned, Put, View, Distinct;
    assert order[k] in order;
    MoreChained(e0, e1, e2, e3, segs, order, lists, owner, ents, order[k], e);
    OwnedMore(order, lists, owner, ents, order[k], e);
    ViewMore(segs, e0, e3, order, lists, owner, ents, k, e);
  }

  lemma AllChainedFrom(segs: Blocks<Seg>, ents: Blocks<Ent>, order: seq<Ref>, lists: map<Ref, seq<Ref>>)
    requires forall k :: 0 <= k < |order| ==>
               InBlocks(segs, order[k]) && order[k] in lists && Chained(ents, Cell(segs, order[k]).list, lists[order[k]])
    ensures AllChained(segs, ents, order, lists)
  {
  }

  lemma ChainEnd(e0: Blocks<Ent>, e3: Blocks<Ent>, head: Ref, list: seq<Ref>, last: Ref, e: Ref)
    requires Chained(e0, head, list) && Distinct(list) && last == list[|list| - 1] && e !in list
    requires InBlocks(e3, e) && Cell(e3, e).next == Null
    requires forall q :: InBlocks(e0, q) && q != e ==> InBlocks(e3, q) && Cell(e3, q).next == if q == last then e else Cell(e0, q).next
    ensures Chained(e3, head, list + [e])
  {
    forall a | 0 <= a < |list|
      ensures InBlocks(e3, list[a]) && Cell(e3, list[a]).next == if a == |list| - 1 then e else Cell(e0, list[a]).next
    {
      assert list[a] != e;
    }
    ChainExtended(e0, e3, head, list, e);
  }

  lemma OtherChain(e0: Blocks<Ent>, e3: Blocks<Ent>, head: Ref, list: seq<Ref>, last: Ref, e: Ref)
    requires Chained(e0, head, list) && last !in list && e !in list
    requires forall q :: InBlocks(e0, q) && q != e && q != last ==> InBlocks(e3, q) && Cell(e3, q).next == Cell(e0, q).next
    ensures Chained(e3, head, list)
  {
    forall a | 0 <= a < |list|
      ensures InBlocks(e3, list[a]) && Cell(e3, list[a]).next == Cell(e0, list[a]).next
    {
      assert list[a] != e && list[a] != last;
    }
    ChainKept(e0, e3, head, list);
  }

  lemma LinkedInside(segs: Blocks<Seg>, first: Ref, order: seq<Ref>)
    requires WellLinked(segs, first, order)
    ensures forall i :: 0 <= i < |order| ==> InBlocks(segs, order[i])
  {
  }

  lemma NullNotLinked(segs: Blocks<Seg>, first: Ref, order: seq<Ref>)
    requires WellLinked(segs, first, order)
    ensures forall i :: 0 <= i < |order| ==> order[i] != Null
  {
  }

  lemma OneLinked(b0: Blocks<Seg>, b1: Blocks<Seg>, x: Ref)
    requires InBlocks(b0, x) && b1 == Put(b0, x, Cell(b0, x).(prev := Null, next := Null))
    ensures WellLinked(b1, x, Inserted([], 0, x)) && SameData(b0, b1, [])
    ensures Cell(b1, x) == Cell(b0, x).(prev := Null, next := Null)
  {
    hide Put;
  }

  lemma InsertedUsed(used: set<Ref>, order: seq<Ref>, k: nat, x: Ref)
    requires k <= |order| && x in used && forall i :: 0 <= i < |order| ==> order[i] in used
    ensures forall i :: 0 <= i < |Inserted(order, k, x)| ==> Inserted(order, k, x)[i] in used
  {
  }

  lemma Untouched(b0: Blocks<Seg>, b1: Blocks<Seg>, b2: Blocks<Seg>, order: seq<Ref>, x: Ref, s: Seg)
    requires Grown(b0, b1) && x !in order && InBlocks(b1, x) && b2 == Put(b1, x, s)
    ensures SameData(b0, b2, order)
  {
    hide Put;
    forall i | 0 <= i < |order|
      ensures order[i] != x
    {
    }
  }

  lemma ChainedGrown(segs0: Blocks<Seg>, segs1: Blocks<Seg>, ents0: Blocks<Ent>, ents1: Blocks<Ent>, order: seq<Ref>,
                     lists: map<Ref, seq<Ref>>)
    requires AllChained(segs0, ents0, order, lists) && SameData(segs0, segs1, order) && Grown(ents0, ents1)
    ensures AllChained(segs1, ents1, order, lists)
  {
    hide Chained;
    forall k | 0 <= k < |order|
      ensures InBlocks(segs1, order[k]) && Chained(ents1, Cell(segs1, order[k]).list, lists[order[k]])
    {
      ChainGrown(ents0, ents1, Cell(segs0, order[k]).list, lists[order[k]]);
    }
  }
}
