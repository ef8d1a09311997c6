// The block allocators of csajrep (csa/cmd/csajrep.c, get_reqseg, get_reqent and clean_wm): blocks of cells whose first
// cell is kept for administration.

module ReqPool {

  // A pointer into the blocks
  datatype Ref = Null | At(blk: nat, slot: nat)

  type Blocks<T> = seq<seq<T>>

  predicate InBlocks<T>(blocks: Blocks<T>, r: Ref) {
    r.At? && r.blk < |blocks| && r.slot < |blocks[r.blk]|
  }

  function Cell<T>(blocks: Blocks<T>, r: Ref): T
    requires InBlocks(blocks, r)
  {
    blocks[r.blk][r.slot]
  }

  function Put<T>(blocks: Blocks<T>, r: Ref, v: T): (b: Blocks<T>)
    requires InBlocks(blocks, r)
    ensures forall q :: InBlocks(b, q) <==> InBlocks(blocks, q)
    ensures forall q :: InBlocks(blocks, q) ==> Cell(b, q) == if q == r then v else Cell(blocks, q)
  {
    blocks[r.blk := blocks[r.blk][r.slot := v]]
  }

  function Filled<T>(n: nat, v: T): (s: seq<T>)
    ensures |s| == n && forall i :: 0 <= i < n ==> s[i] == v
  {
    seq(n, _ => v)
  }

  class Pool<T(!new)> {
    const zero: T
    const inc: nat                        // cells in a block
    var blocks: Blocks<T>
    var curr: int                         // the block cells are taken from
    var navail: nat                       // how many of its cells are left
    ghost var used: set<Ref>

    // Cells are taken from the end of a block towards its front; the first one never is.
    ghost predicate Taken(r: Ref)
      reads this
    {
      r.At? && 1 <= r.slot < inc && (r.blk < curr || (r.blk == curr && r.slot > navail))
    }

    ghost predicate Valid()
      reads this
    {
      && inc > 1 && -1 <= curr < |blocks| && navail < inc && (curr == -1 ==> navail == 0 && blocks == [])
      && (forall b :: 0 <= b < |blocks| ==> |blocks[b]| == inc)
      && (forall r :: r in used <==> Taken(r))
      && forall r :: InBlocks(blocks, r) && r.slot > 0 && r !in used ==> Cell(blocks, r) == zero
    }

    constructor (zero: T, inc: nat)
      requires inc > 1
      ensures Valid() && this.zero == zero && this.inc == inc && used == {}
    {
      this.zero, this.inc := zero, inc;
      blocks, curr, navail, used := [], -1, 0, {};
    }

    // A cell nobody has, all zero, and never the first of its block; nothing else changes.
    method Get() returns (r: Ref)
      requires Valid()
      modifies this
      ensures Valid() && r !in old(used) && used == old(used) + {r}
      ensures r.At? && r.slot > 0 && InBlocks(blocks, r) && Cell(blocks, r) == zero
      ensures forall q :: InBlocks(old(blocks), q) ==> InBlocks(blocks, q) && Cell(blocks, q) == Cell(old(blocks), q)
    {
      hide Put;
      if navail == 0 {
        if curr + 1 == |blocks| {
          blocks := blocks + [Filled(inc, zero)];
          assert forall q :: InBlocks(old(blocks), q) ==> InBlocks(blocks, q) && Cell(blocks, q) == Cell(old(blocks), q);
          assert forall q :: InBlocks(blocks, q) && !InBlocks(old(blocks), q) ==> Cell(blocks, q) == zero;
        }
        curr := curr + 1;
        navail := inc - 1;
      }
      assert forall q :: q in used <==> Taken(q);
      r := At(curr, navail);
      navail := navail - 1;
      used := used + {r};
    }

    method Set(r: Ref, v: T)
      requires Valid() && r in used
      modifies this`blocks
      ensures Valid() && InBlocks(old(blocks), r) && blocks == Put(old(blocks), r, v)
    {
      blocks := Put(blocks, r, v);
    }

    // clean_wm, for one of the two allocators: every cell but the first of each block is zeroed and free again.
    method Clean()
      requires Valid() && blocks != []
      modifies this
      ensures Valid() && used == {}
      ensures |blocks| == |old(blocks)| && forall b :: 0 <= b < |blocks| ==> blocks[b][0] == old(blocks)[b][0]
    {
      var b := 0;
      while b < |blocks|
        invariant 0 <= b <= |blocks| == |old(blocks)|
        invariant inc > 1 && forall k :: 0 <= k < |blocks| ==> |blocks[k]| == inc && blocks[k][0] == old(blocks)[k][0]
        invariant forall k, s :: 0 <= k < b && 1 <= s < inc ==> blocks[k][s] == zero
      {
        blocks := blocks[b := [blocks[b][0]] + Filled(inc - 1, zero)];
        b := b + 1;
      }
      curr, navail, used := 0, inc - 1, {};
    }
  }
}
