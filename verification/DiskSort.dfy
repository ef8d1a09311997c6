// In-place bubble sort of the disk usage list (csa/cmd/acctdusg.c, dsort and swapd).

module DiskSort {

  class Du {
    const uid: int
    var next: Du?

    constructor (uid: int)
      ensures this.uid == uid && next == null
    {
      this.uid, next := uid, null;
    }
  }

  // ---- Order, stability and inversions of a list of entries ----

  predicate Sorted(s: seq<Du>) {
    forall i :: 0 < i < |s| ==> s[i - 1].uid <= s[i].uid
  }

  // The entries of one user, in list order
  function OfUser(s: seq<Du>, uid: int): seq<Du> {
    if s == [] then [] else (if s[0].uid == uid then [s[0]] else []) + OfUser(s[1..], uid)
  }

  // A rearrangement that keeps the order of entries with equal uid
  ghost predicate StableRearrangement(s: seq<Du>, t: seq<Du>) {
    multiset(s) == multiset(t) && forall uid :: OfUser(s, uid) == OfUser(t, uid)
  }

  // How many entries of s have a smaller uid
  function Below(s: seq<Du>, uid: int): nat {
    if s == [] then 0 else (if s[0].uid < uid then 1 else 0) + Below(s[1..], uid)
  }

  // Pairs of entries in the wrong order
  function Inversions(s: seq<Du>): nat {
    if s == [] then 0 else Below(s[1..], s[0].uid) + Inversions(s[1..])
  }

  // s with the entries k and k + 1 exchanged
  function Exchanged(s: seq<Du>, k: nat): (t: seq<Du>)
    requires k + 1 < |s|
    ensures |t| == |s|
    ensures forall i :: 0 <= i < |s| ==> t[i] == if i == k then s[k + 1] else if i == k + 1 then s[k] else s[i]
  {
    s[..k] + [s[k + 1], s[k]] + s[k + 2..]
  }

  lemma ExchangedTail(s: seq<Du>, k: nat)
    requires k + 1 < |s|
    ensures k > 0 ==> Exchanged(s, k)[0] == s[0] && Exchanged(s, k)[1..] == Exchanged(s[1..], k - 1)
    ensures k == 0 ==> Exchanged(s, k) == [s[1], s[0]] + s[2..]
  {
  }

  lemma {:induction false} ExchangeBelow(s: seq<Du>, k: nat, uid: int)
    requires k + 1 < |s|
    ensures Below(Exchanged(s, k), uid) == Below(s, uid)
  {
    hide Exchanged;
    ExchangedTail(s, k);
    if k > 0 {
      ExchangeBelow(s[1..], k - 1, uid);
    } else {
      var t := Exchanged(s, 0);
      assert t[1..] == [s[0]] + s[2..] && t[1..][1..] == s[2..] && s[1..][1..] == s[2..];
    }
  }

  // Exchanging neighbours that are in the wrong order removes one inversion.
  lemma {:induction false} ExchangeInversions(s: seq<Du>, k: nat)
    requires k + 1 < |s| && s[k].uid > s[k + 1].uid
    ensures Inversions(Exchanged(s, k)) == Inversions(s) - 1
  {
    hide Exchanged;
    ExchangedTail(s, k);
    if k > 0 {
      ExchangeInversions(s[1..], k - 1);
      ExchangeBelow(s[1..], k - 1, s[0].uid);
    } else {
      var t := Exchanged(s, 0);
      assert t[1..] == [s[0]] + s[2..] && t[1..][1..] == s[2..] && s[1..][1..] == s[2..];
    }
  }

  lemma {:induction false} ExchangeOfUser(s: seq<Du>, k: nat, uid: int)
    requires k + 1 < |s| && s[k].uid != s[k + 1].uid
    ensures OfUser(Exchanged(s, k), uid) == OfUser(s, uid)
  {
    hide Exchanged;
    ExchangedTail(s, k);
    if k > 0 {
      ExchangeOfUser(s[1..], k - 1, uid);
    } else {
      var t := Exchanged(s, 0);
      assert t[1..] == [s[0]] + s[2..] && t[1..][1..] == s[2..] && s[1..][1..] == s[2..];
    }
  }

  lemma ExchangeMembers(s: seq<Du>, k: nat)
    requires k + 1 < |s|
    ensures multiset(Exchanged(s, k)) == multiset(s)
  {
    assert s == s[..k] + [s[k], s[k + 1]] + s[k + 2..];
  }

  lemma ExchangeIsStable(s: seq<Du>, k: nat)
    requires k + 1 < |s| && s[k].uid > s[k + 1].uid
    ensures StableRearrangement(s, Exchanged(s, k))
  {
    ExchangeMembers(s, k);
    forall uid
      ensures OfUser(s, uid) == OfUser(Exchanged(s, k), uid)
    {
      ExchangeOfUser(s, k, uid);
    }
  }

  lemma StableReflexive(s: seq<Du>)
    ensures StableRearrangement(s, s)
  {
  }

  lemma StableTransitive(s: seq<Du>, t: seq<Du>, u: seq<Du>)
    requires StableRearrangement(s, t) && StableRearrangement(t, u)
    ensures StableRearrangement(s, u)
  {
  }

  // ---- The list ----

  // The node behind node i
  function Successor(s: seq<Du>, i: nat): Du?
    requires i < |s|
  {
    if i + 1 < |s| then s[i + 1] else null
  }

  ghost predicate Linked(nodes: seq<Du>, head: Du?)
    reads nodes
  {
    && head == (if nodes == [] then null else nodes[0])
    && (forall i, j :: 0 <= i < j < |nodes| ==> nodes[i] != nodes[j])
    && (forall i :: 0 <= i < |nodes| ==> nodes[i].next == Successor(nodes, i))
  }

  lemma NextNode(nodes: seq<Du>, head: Du?, k: nat)
    requires Linked(nodes, head) && k < |nodes|
    ensures nodes[k].next == Successor(nodes, k)
  {
  }

  lemma HeadNode(nodes: seq<Du>, head: Du?)
    requires Linked(nodes, head)
    ensures head == if nodes == [] then null else nodes[0]
  {
  }

  // The links a swap of the nodes k and k + 1 leaves
  ghost predicate Relinked(s: seq<Du>, k: nat)
    requires k + 1 < |s|
    reads s
  {
    && s[k + 1].next == s[k]
    && s[k].next == Successor(s, k + 1)
    && (k > 0 ==> s[k - 1].next == s[k + 1])
    && forall i :: 0 <= i < |s| && i != k - 1 && i != k && i != k + 1 ==>
         s[i].next == Successor(s, i)
  }

  lemma LinkedAfterSwap(s: seq<Du>, head: Du?, k: nat)
    requires k + 1 < |s| && Relinked(s, k)
    requires forall i, j :: 0 <= i < j < |s| ==> s[i] != s[j]
    requires head == if k == 0 then s[1] else s[0]
    ensures Linked(Exchanged(s, k), head)
    ensures forall x :: x in Exchanged(s, k) ==> x in s
  {
    hide Exchanged;
    var t := Exchanged(s, k);
    forall i | 0 <= i < |t|
      ensures t[i].next == Successor(t, i)
    {
      if i != k - 1 && i != k && i != k + 1 {
        assert t[i] == s[i] && s[i].next == Successor(s, i);
      }
    }
  }

  class DuList {
    var head: Du?             // du_list
    ghost var nodes: seq<Du>
    ghost var Repr: set<Du>

    ghost predicate Valid()
      reads this, Repr
    {
      (forall x :: x in nodes ==> x in Repr) && Linked(nodes, head)
    }

    // swapd: exchange the neighbours d1 and d2, the k-th and the next node; p is the node before d1, or null
    method Swap(p: Du?, d1: Du, d2: Du, ghost k: nat)
      requires Valid() && k + 1 < |nodes| && d1 == nodes[k] && d2 == nodes[k + 1]
      requires p == (if k == 0 then null else nodes[k - 1])
      modifies this, Repr
      ensures Valid() && Repr == old(Repr) && nodes == Exchanged(old(nodes), k)
    {
      hide Exchanged;
      ghost var s := nodes;
      NextNode(s, head, k + 1);
      if p != null {
        p.next := d2;
        var t := d2.next;
        d2.next := d1;
        d1.next := t;
      } else {
        var t := d2.next;
        d2.next := d1;
        d1.next := t;
        head := d2;
      }
      LinkedAfterSwap(s, head, k);
      nodes := Exchanged(s, k);
    }

    // dsort
    method Sort()
      requires Valid()
      modifies this, Repr
      ensures Valid() && Repr == old(Repr) && Sorted(nodes)
      ensures StableRearrangement(old(nodes), nodes)
    {
      hide OfUser, Inversions, StableRearrangement, Linked, Exchanged;
      HeadNode(nodes, head);
      if nodes != [] {
        NextNode(nodes, head, 0);
      }
      StableReflexive(nodes);
      if head == null || head.next == null {
        return;
      }
      var change := false;
      var pdp: Du? := null;
      var dp1 := head;
      ghost var k := 0;
      while true
        invariant Valid() && Repr == old(Repr) && 0 <= k < |nodes|
        invariant dp1 == nodes[k] && pdp == if k == 0 then null else nodes[k - 1]
        invariant StableRearrangement(old(nodes), nodes)
        invariant !change ==> forall i :: 0 < i <= k ==> nodes[i - 1].uid <= nodes[i].uid
        decreases Inversions(nodes), if change then 1 else 0, |nodes| - k
      {
        var dp2 := dp1.next;
        NextNode(nodes, head, k);
        if dp2 == null {
          if !change {
            break;
          }
          HeadNode(nodes, head);
          dp1 := head;
          pdp := null;
          change := false;
          k := 0;
          continue;
        }
        if dp1.uid > dp2.uid {
          ghost var before := nodes;
          ExchangeInversions(nodes, k);
          ExchangeIsStable(nodes, k);
          Swap(pdp, dp1, dp2, k);
          StableTransitive(old(nodes), before, nodes);
          change := true;
          dp1 := dp2;
          continue;
        }
        pdp := dp1;
        dp1 := dp2;
        k := k + 1;
      }
    }
  }

  // ---- A sorted list that keeps equal uids in order is unique ----

  lemma {:induction false} OfUserAbsent(s: seq<Du>, uid: int)
    requires Sorted(s) && (s == [] || uid < s[0].uid)
    ensures OfUser(s, uid) == []
  {
    if s != [] {
      OfUserAbsent(s[1..], uid);
    }
  }

  lemma HeadNotAbove(s: seq<Du>, t: seq<Du>)
    requires Sorted(t) && s != [] && OfUser(s, s[0].uid) == OfUser(t, s[0].uid)
    ensures t != [] && t[0].uid <= s[0].uid
  {
    if t == [] || s[0].uid < t[0].uid {
      OfUserAbsent(t, s[0].uid);
    }
  }

  lemma OfUserHead(s: seq<Du>, uid: int)
    requires s != []
    ensures OfUser(s, uid) == (if s[0].uid == uid then [s[0]] else []) + OfUser(s[1..], uid)
  {
  }

  lemma SameHead(s: seq<Du>, t: seq<Du>, uid: int)
    requires s != [] && t != [] && s[0].uid == t[0].uid && OfUser(s, s[0].uid) == OfUser(t, t[0].uid)
    requires OfUser(s, uid) == OfUser(t, uid)
    ensures s[0] == t[0] && OfUser(s[1..], uid) == OfUser(t[1..], uid)
  {
    hide OfUser;
    OfUserHead(s, s[0].uid);
    OfUserHead(t, t[0].uid);
    assert OfUser(s, s[0].uid)[0] == s[0] && OfUser(t, t[0].uid)[0] == t[0];
    OfUserHead(s, uid);
    OfUserHead(t, uid);
    if uid == s[0].uid {
      assert OfUser(s, uid)[1..] == OfUser(s[1..], uid) && OfUser(t, uid)[1..] == OfUser(t[1..], uid);
    } else {
      assert OfUser(s, uid) == OfUser(s[1..], uid) && OfUser(t, uid) == OfUser(t[1..], uid);
    }
  }

  // So the two postconditions of Sort fix its outcome.
  lemma {:induction false} StableSortIsUnique(s: seq<Du>, t: seq<Du>)
    requires Sorted(s) && Sorted(t) && forall uid :: OfUser(s, uid) == OfUser(t, uid)
    ensures s == t
  {
    hide OfUser;
    if s != [] || t != [] {
      if s != [] { HeadNotAbove(s, t); }
      if t != [] { HeadNotAbove(t, s); }
      forall uid
        ensures OfUser(s[1..], uid) == OfUser(t[1..], uid)
      {
        SameHead(s, t, uid);
      }
      SameHead(s, t, s[0].uid);
      StableSortIsUnique(s[1..], t[1..]);
    }
  }
}
