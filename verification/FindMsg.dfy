// Message lookup (csa/intl/dcgettext.c, find_msg): double hashing against binary search.

module FindMsg {
  import opened Basics

  newtype uint32 = x: int | 0 <= x < 0x1_0000_0000

  // A row of orig_tab with its text, and the text of the same row of trans_tab
  datatype Row = Row(length: nat, text: string, trans: string)

  // hash_tab holds row numbers plus one; 0 marks an empty slot
  datatype Catalog = Catalog(rows: seq<Row>, hashTab: seq<uint32>)

  // hash_string, any function into 32 bits
  type Hash = string -> uint32

  // ---- Arithmetic of the probe sequence ----

  ghost predicate Prime(p: nat) {
    p > 1 && forall d :: 1 < d < p ==> p % d != 0
  }

  // Slot k of the probe sequence that starts at h % p and moves by 1 + h % (p - 2)
  function Probe(h: nat, p: nat, k: nat): (i: nat)
    requires p > 2
    ensures i < p
  {
    (h % p + k * Increment(h, p)) % p
  }

  function Increment(h: nat, p: nat): (i: nat)
    requires p > 2
    ensures 0 < i < p
  {
    1 + h % (p - 2)
  }

  lemma MulBounds(d: int, p: int)
    requires p > 0
    ensures d >= 1 ==> d * p >= p
    ensures d <= -1 ==> d * p <= -p
  {
  }

  lemma ModUnique(p: nat, q: int, r: nat)
    requires r < p
    ensures (q * p + r) % p == r
  {
    var x := q * p + r;
    assert x == (x / p) * p + x % p;
    assert (x / p - q) * p == r - x % p;
    MulBounds(x / p - q, p);
  }

  // If p divides k * a then it divides (p mod k) * a.
  lemma ZeroGoesDown(p: nat, a: nat, k: nat)
    requires 0 < k < p && (k * a) % p == 0
    ensures ((p % k) * a) % p == 0
  {
    var c, q := k * a / p, p / k;
    assert k * a == c * p;
    assert p % k == p - q * k;
    assert (q * k) * a == q * (k * a) == q * (c * p) == (q * c) * p;
    assert (p % k) * a == p * a - (q * k) * a == (a - q * c) * p;
    ModUnique(p, a - q * c, 0);
  }

  // A prime divides no product of two positive numbers below it.
  lemma {:induction false} NoZeroProduct(p: nat, a: nat, k: nat)
    requires Prime(p) && 0 < a < p && 0 < k < p
    ensures (k * a) % p != 0
    decreases k
  {
    if k == 1 {
      ModUnique(p, 0, a);
    } else {
      NoZeroProduct(p, a, p % k);
      if (k * a) % p == 0 {
        ZeroGoesDown(p, a, k);
      }
    }
  }

  // Equal remainders differ by a multiple.
  lemma SameRemainder(p: nat, x: int, y: int)
    requires p > 0 && x % p == y % p
    ensures (y - x) % p == 0
  {
    assert y - x == (y / p - x / p) * p;
    ModUnique(p, y / p - x / p, 0);
  }

  // The first p probes are p different slots.
  lemma ProbesDiffer(h: nat, p: nat, j: nat, k: nat)
    requires Prime(p) && p > 2 && j < k < p
    ensures Probe(h, p, j) != Probe(h, p, k)
  {
    var a := Increment(h, p);
    NoZeroProduct(p, a, k - j);
    assert k * a - j * a == (k - j) * a;
    if Probe(h, p, j) == Probe(h, p, k) {
      SameRemainder(p, h % p + j * a, h % p + k * a);
    }
  }

  function Probed(h: nat, p: nat, n: nat): set<nat>
    requires p > 2
  {
    set k: nat | k < n :: Probe(h, p, k)
  }

  function Slots(p: nat): (r: set<nat>)
    ensures forall i: nat :: i in r <==> i < p
    ensures |r| == p
  {
    if p == 0 then {} else Slots(p - 1) + {p - 1}
  }

  lemma {:induction false} ProbedCount(h: nat, p: nat, n: nat)
    requires Prime(p) && p > 2 && n <= p
    ensures |Probed(h, p, n)| == n
    decreases n
  {
    hide Probe;
    if n > 0 {
      ProbedCount(h, p, n - 1);
      assert Probed(h, p, n) == Probed(h, p, n - 1) + {Probe(h, p, n - 1)};
      forall k: nat | k < n - 1
        ensures Probe(h, p, k) != Probe(h, p, n - 1)
      {
        ProbesDiffer(h, p, k, n - 1);
      }
    }
  }

  lemma {:induction false} SubsetOfSameSize(a: set<nat>, b: set<nat>)
    requires a <= b && |a| == |b|
    ensures a == b
  {
    assert |b - a| == |b| - |a|;
    assert b == a + (b - a);
  }

  // With a prime table size the probe sequence visits every slot within the first p probes.
  lemma VisitsEverySlot(h: nat, p: nat, slot: nat) returns (k: nat)
    requires Prime(p) && p > 2 && slot < p
    ensures k < p && Probe(h, p, k) == slot
  {
    hide Probe;
    ProbedCount(h, p, p);
    SubsetOfSameSize(Probed(h, p, p), Slots(p));
    assert slot in Probed(h, p, p);
    k :| k < p && Probe(h, p, k) == slot;
  }

  // One step of the probe sequence, computed without a sum that could exceed 32 bits.
  lemma ProbeStep(h: nat, p: nat, k: nat)
    requires p > 2
    ensures var i, a := Probe(h, p, k), Increment(h, p);
            Probe(h, p, k + 1) == if i >= p - a then i - (p - a) else i + a
  {
    var i, a := Probe(h, p, k), Increment(h, p);
    var x := h % p + k * a;
    assert h % p + (k + 1) * a == x + a;
    assert x == (x / p) * p + i;
    if i >= p - a {
      assert x + a == (x / p + 1) * p + (i - (p - a));
      ModUnique(p, x / p + 1, i - (p - a));
    } else {
      ModUnique(p, x / p, i + a);
    }
  }

  // ---- Strings in strcmp order ----

  function Strcmp(a: string, b: string): int {
    if a == [] then (if b == [] then 0 else -1)
    else if b == [] then 1
    else if a[0] < b[0] then -1
    else if a[0] > b[0] then 1
    else Strcmp(a[1..], b[1..])
  }

  lemma {:induction false} StrcmpEqual(a: string, b: string)
    ensures Strcmp(a, b) == 0 <==> a == b
  {
    if a != [] && b != [] {
      StrcmpEqual(a[1..], b[1..]);
      assert a == [a[0]] + a[1..] && b == [b[0]] + b[1..];
    }
  }

  lemma {:induction false} StrcmpFlip(a: string, b: string)
    ensures Strcmp(a, b) < 0 <==> Strcmp(b, a) > 0
  {
    if a != [] && b != [] {
      StrcmpFlip(a[1..], b[1..]);
    }
  }

  lemma {:induction false} StrcmpTransitive(a: string, b: string, c: string)
    requires Strcmp(a, b) < 0 && Strcmp(b, c) < 0
    ensures Strcmp(a, c) < 0
  {
    if a != [] && b != [] && c != [] && a[0] == b[0] == c[0] {
      StrcmpTransitive(a[1..], b[1..], c[1..]);
    }
  }

  // ---- What a lookup means ----

  ghost predicate Sorted(rows: seq<Row>) {
    forall i, j :: 0 <= i < j < |rows| ==> Strcmp(rows[i].text, rows[j].text) < 0
  }

  // The translation of msgid, if some row has it as its text.
  function ByText(rows: seq<Row>, msgid: string): Option<string> {
    if rows == [] then None
    else
      var last := rows[|rows| - 1];
      if last.text == msgid then Some(last.trans) else ByText(rows[..|rows| - 1], msgid)
  }

  // The same among the rows whose recorded length is that of msgid.
  function ByTextAndLength(rows: seq<Row>, msgid: string): Option<string> {
    if rows == [] then None
    else
      var last := rows[|rows| - 1];
      if last.text == msgid && last.length == |msgid| then Some(last.trans)
      else ByTextAndLength(rows[..|rows| - 1], msgid)
  }

  ghost predicate DistinctTexts(rows: seq<Row>) {
    forall i, j :: 0 <= i < j < |rows| ==> rows[i].text != rows[j].text
  }

  lemma SortedDistinct(rows: seq<Row>)
    requires Sorted(rows)
    ensures DistinctTexts(rows)
  {
    forall i, j | 0 <= i < j < |rows|
      ensures rows[i].text != rows[j].text
    {
      StrcmpEqual(rows[i].text, rows[j].text);
    }
  }

  lemma {:induction false} ByTextHit(rows: seq<Row>, msgid: string, i: nat)
    requires DistinctTexts(rows) && i < |rows| && rows[i].text == msgid
    ensures ByText(rows, msgid) == Some(rows[i].trans)
    ensures ByTextAndLength(rows, msgid) == if rows[i].length == |msgid| then Some(rows[i].trans) else None
    decreases |rows|
  {
    var n := |rows| - 1;
    if i < n {
      assert rows[..n][i] == rows[i];
      ByTextHit(rows[..n], msgid, i);
    } else {
      ByTextMiss(rows[..n], msgid);
    }
  }

  lemma {:induction false} ByTextMiss(rows: seq<Row>, msgid: string)
    requires forall i :: 0 <= i < |rows| ==> rows[i].text != msgid
    ensures ByText(rows, msgid) == None && ByTextAndLength(rows, msgid) == None
    decreases |rows|
  {
    if rows != [] {
      ByTextMiss(rows[..|rows| - 1], msgid);
    }
  }

  lemma {:induction false} LengthMiss(rows: seq<Row>, msgid: string)
    requires forall i :: 0 <= i < |rows| ==> !(rows[i].text == msgid && rows[i].length == |msgid|)
    ensures ByTextAndLength(rows, msgid) == None
    decreases |rows|
  {
    if rows != [] {
      LengthMiss(rows[..|rows| - 1], msgid);
    }
  }

  // ---- Hash tables built by the probe rule ----

  // What slot k of a text's probe sequence holds
  function SlotAt(tab: seq<uint32>, hash: Hash, text: string, k: nat): nat
    requires |tab| > 2
  {
    tab[Probe(hash(text) as nat, |tab|, k)] as nat
  }

  // The first k slots of the probe sequence of text are occupied.
  ghost predicate Unbroken(tab: seq<uint32>, hash: Hash, text: string, k: nat)
    requires |tab| > 2
  {
    forall j: nat :: j < k ==> SlotAt(tab, hash, text, j) != 0
  }

  // Row i sits on its own probe sequence, behind occupied slots only.
  ghost predicate Placed(rows: seq<Row>, tab: seq<uint32>, hash: Hash, i: nat)
    requires i < |rows| && |tab| > 2
  {
    exists k: nat :: SlotAt(tab, hash, rows[i].text, k) == i + 1 && Unbroken(tab, hash, rows[i].text, k)
  }

  // A table of prime size with a free slot, in which every row is placed and every occupied slot holds a row.
  ghost predicate Built(c: Catalog, hash: Hash) {
    var tab := c.hashTab;
    && 2 < |tab| < 0x1_0000_0000 && Prime(|tab|)
    && (forall s :: 0 <= s < |tab| ==> tab[s] as nat <= |c.rows|)
    && (forall i :: 0 <= i < |c.rows| ==> Placed(c.rows, tab, hash, i))
    && exists s :: 0 <= s < |tab| && tab[s] == 0
  }

  lemma StaysUnbroken(tab: seq<uint32>, slot: nat, value: uint32, hash: Hash, text: string, k: nat)
    requires |tab| > 2 && slot < |tab| && value != 0 && Unbroken(tab, hash, text, k)
    ensures Unbroken(tab[slot := value], hash, text, k)
  {
    hide Probe;
    var filled := tab[slot := value];
    forall j: nat | j < k
      ensures SlotAt(filled, hash, text, j) != 0
    {
      assert SlotAt(tab, hash, text, j) != 0;
    }
  }

  // The rule by which such tables grow: a new row goes into the first free slot of its probe sequence.
  lemma InsertKeepsBuilt(c: Catalog, hash: Hash, row: Row, k: nat)
    requires Built(c, hash) && |c.rows| + 1 < 0x1_0000_0000
    requires SlotAt(c.hashTab, hash, row.text, k) == 0 && Unbroken(c.hashTab, hash, row.text, k)
    requires exists s :: 0 <= s < |c.hashTab| && c.hashTab[s] == 0 && s != Probe(hash(row.text) as nat, |c.hashTab|, k)
    ensures var slot := Probe(hash(row.text) as nat, |c.hashTab|, k);
            Built(Catalog(c.rows + [row], c.hashTab[slot := (|c.rows| + 1) as uint32]), hash)
  {
    hide Probe, Prime;
    var slot := Probe(hash(row.text) as nat, |c.hashTab|, k);
    var rows, tab := c.rows + [row], c.hashTab[slot := (|c.rows| + 1) as uint32];
    forall i | 0 <= i < |rows|
      ensures Placed(rows, tab, hash, i)
    {
      var text := rows[i].text;
      if i < |c.rows| {
        assert Placed(c.rows, c.hashTab, hash, i);
        var m: nat :| SlotAt(c.hashTab, hash, text, m) == i + 1 && Unbroken(c.hashTab, hash, text, m);
        StaysUnbroken(c.hashTab, slot, (|c.rows| + 1) as uint32, hash, text, m);
        assert SlotAt(tab, hash, text, m) == i + 1;
      } else {
        StaysUnbroken(c.hashTab, slot, (|c.rows| + 1) as uint32, hash, text, k);
        assert SlotAt(tab, hash, text, k) == i + 1;
      }
    }
    var s :| 0 <= s < |c.hashTab| && c.hashTab[s] == 0 && s != slot;
    assert tab[s] == 0;
  }

  // The row a slot holds is the one looked for.
  predicate RowMatches(rows: seq<Row>, nstr: nat, msgid: string)
    requires 0 < nstr <= |rows|
  {
    rows[nstr - 1].length == |msgid| && rows[nstr - 1].text == msgid
  }

  // The first k probes met other rows only.
  ghost predicate OthersOnly(c: Catalog, hash: Hash, msgid: string, k: nat)
    requires Built(c, hash)
  {
    forall j: nat :: j < k ==>
      var nstr := SlotAt(c.hashTab, hash, msgid, j);
      nstr != 0 && !RowMatches(c.rows, nstr, msgid)
  }

  // Meeting a free slot after only other rows proves that no row matches.
  lemma FreeSlotMeansAbsent(c: Catalog, hash: Hash, msgid: string, k: nat)
    requires Built(c, hash)
    requires SlotAt(c.hashTab, hash, msgid, k) == 0 && OthersOnly(c, hash, msgid, k)
    ensures ByTextAndLength(c.rows, msgid) == None
  {
    hide Probe, Prime;
    forall i | 0 <= i < |c.rows|
      ensures !(c.rows[i].text == msgid && c.rows[i].length == |msgid|)
    {
      assert Placed(c.rows, c.hashTab, hash, i);
    }
    LengthMiss(c.rows, msgid);
  }

  // The next slot to look at, computed without a sum that could exceed 32 bits
  method NextProbe(idx: uint32, incr: uint32, size: uint32, ghost h: nat, ghost k: nat) returns (next: uint32)
    requires size > 2 && idx as nat == Probe(h, size as nat, k) && incr as nat == Increment(h, size as nat)
    ensures next as nat == Probe(h, size as nat, k + 1)
  {
    hide Probe, Increment;
    ProbeStep(h, size as nat, k);
    next := if idx >= size - incr then idx - (size - incr) else idx + incr;
  }

  // The hash branch of find_msg
  method FindByHash(c: Catalog, hash: Hash, msgid: string) returns (r: Option<string>)
    requires Built(c, hash) && DistinctTexts(c.rows)
    ensures r == ByTextAndLength(c.rows, msgid)
  {
    hide Probe, Prime, Placed;
    var size := |c.hashTab| as uint32;
    var hashVal := hash(msgid);
    var idx := hashVal % size;
    var incr := 1 + hashVal % (size - 2);
    ghost var h, p: nat := hashVal as nat, |c.hashTab|;
    ProbeZero(h, p);
    ghost var free :| 0 <= free < p && c.hashTab[free] == 0;
    ghost var limit: nat := VisitsEverySlot(h, p, free);
    ghost var k: nat := 0;

    var nstr := c.hashTab[idx];
    if nstr == 0 {
      FreeSlotMeansAbsent(c, hash, msgid, 0);
      return None;
    }
    if RowMatches(c.rows, nstr as nat, msgid) {
      ByTextHit(c.rows, msgid, nstr as nat - 1);
      return Some(c.rows[nstr - 1].trans);
    }
    while true
      invariant idx as nat == Probe(h, p, k) < p && incr as nat == Increment(h, p)
      invariant OthersOnly(c, hash, msgid, k + 1)
      decreases limit - k
    {
      assert k < limit by { assert SlotAt(c.hashTab, hash, msgid, limit) == 0; }
      idx := NextProbe(idx, incr, size, h, k);
      nstr := c.hashTab[idx];
      assert SlotAt(c.hashTab, hash, msgid, k + 1) == nstr as nat;
      if nstr == 0 {
        FreeSlotMeansAbsent(c, hash, msgid, k + 1);
        return None;
      }
      if RowMatches(c.rows, nstr as nat, msgid) {
        ByTextHit(c.rows, msgid, nstr as nat - 1);
        return Some(c.rows[nstr - 1].trans);
      }
      k := k + 1;
    }
  }

  lemma ProbeZero(h: nat, p: nat)
    requires p > 2
    ensures Probe(h, p, 0) == h % p
  {
    ModUnique(p, 0, h % p);
  }

  // The binary search of find_msg
  method FindByBisection(c: Catalog, msgid: string) returns (r: Option<string>)
    requires Sorted(c.rows)
    ensures r == ByText(c.rows, msgid)
  {
    SortedDistinct(c.rows);
    var bottom, top := 0, |c.rows|;
    while bottom < top
      invariant 0 <= bottom <= top <= |c.rows|
      invariant forall i :: 0 <= i < bottom ==> Strcmp(c.rows[i].text, msgid) < 0
      invariant forall i :: top <= i < |c.rows| ==> Strcmp(msgid, c.rows[i].text) < 0
    {
      var act := (bottom + top) / 2;
      var cmp := Strcmp(msgid, c.rows[act].text);
      if cmp < 0 {
        forall i | act < i < |c.rows|
          ensures Strcmp(msgid, c.rows[i].text) < 0
        {
          StrcmpTransitive(msgid, c.rows[act].text, c.rows[i].text);
        }
        top := act;
      } else if cmp > 0 {
        StrcmpFlip(c.rows[act].text, msgid);
        forall i | 0 <= i < act
          ensures Strcmp(c.rows[i].text, msgid) < 0
        {
          StrcmpTransitive(c.rows[i].text, c.rows[act].text, msgid);
        }
        bottom := act + 1;
      } else {
        StrcmpEqual(msgid, c.rows[act].text);
        ByTextHit(c.rows, msgid, act);
        return Some(c.rows[act].trans);
      }
    }
    forall i | 0 <= i < |c.rows|
      ensures c.rows[i].text != msgid
    {
      StrcmpEqual(c.rows[i].text, msgid);
      StrcmpEqual(msgid, c.rows[i].text);
    }
    ByTextMiss(c.rows, msgid);
    return None;
  }

  // find_msg on a loaded catalogue; an empty hash_tab stands for a missing one
  method FindMsg(c: Catalog, hash: Hash, msgid: string) returns (r: Option<string>)
    requires Sorted(c.rows)
    requires |c.hashTab| > 2 ==> Built(c, hash)
    ensures r == if |c.hashTab| > 2 then ByTextAndLength(c.rows, msgid) else ByText(c.rows, msgid)
  {
    SortedDistinct(c.rows);
    if |c.hashTab| > 2 {
      r := FindByHash(c, hash, msgid);
    } else {
      r := FindByBisection(c, msgid);
    }
  }

  // The two branches give the same answer for every msgid exactly when every recorded length is that of its text.
  lemma BranchesAgree(rows: seq<Row>)
    requires DistinctTexts(rows)
    ensures (forall msgid :: ByTextAndLength(rows, msgid) == ByText(rows, msgid))
       <==> (forall i :: 0 <= i < |rows| ==> rows[i].length == |rows[i].text|)
  {
    if forall i :: 0 <= i < |rows| ==> rows[i].length == |rows[i].text| {
      forall msgid
        ensures ByTextAndLength(rows, msgid) == ByText(rows, msgid)
      {
        LookupsAgree(rows, msgid);
      }
    } else {
      var i :| 0 <= i < |rows| && rows[i].length != |rows[i].text|;
      ByTextHit(rows, rows[i].text, i);
      assert ByTextAndLength(rows, rows[i].text) != ByText(rows, rows[i].text);
    }
  }

  lemma LookupsAgree(rows: seq<Row>, msgid: string)
    requires DistinctTexts(rows)
    requires forall i :: 0 <= i < |rows| ==> rows[i].length == |rows[i].text|
    ensures ByTextAndLength(rows, msgid) == ByText(rows, msgid)
  {
    if i :| 0 <= i < |rows| && rows[i].text == msgid {
      ByTextHit(rows, msgid, i);
    } else {
      ByTextMiss(rows, msgid);
    }
  }
}
