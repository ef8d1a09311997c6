// The chained hash table of the daemon (csa/csad/hash.c): chains on the heap that stand for a finite map.

module HashTable {
  import opened Basics

  type Key = seq<byte>

  datatype Status = HASH_OK | HASH_NOENT | HASH_EXISTS

  const WORD: nat := 0x1_0000_0000

  // ---- The hash function ----

  // Little-endian value of the first n bytes of key
  function Word(key: Key, n: nat): nat
    requires n <= |key|
  {
    if n == 0 then 0 else key[0] + 256 * Word(key[1..], n - 1)
  }

  // Sum of the key's words in 32 bits: four bytes at a time, then two; a single last byte is left out.
  function KeySum(key: Key): (r: nat)
    ensures r < WORD
  {
    if |key| <= 1 then 0
    else if |key| < 4 then Word(key, 2) % WORD
    else (Word(key, 4) + KeySum(key[4..])) % WORD
  }

  function Bucket(key: Key, tableSize: nat): (b: nat)
    requires 0 < tableSize
    ensures b < tableSize
  {
    KeySum(key) % tableSize
  }

  lemma ModSum(a: nat, b: nat, c: nat)
    ensures ((a + b) % WORD + c) % WORD == (a + (b + c) % WORD) % WORD
  {
  }

  // get_hash
  method GetHash(key: Key, tableSize: nat) returns (index: nat)
    requires 0 < tableSize
    ensures index == Bucket(key, tableSize)
  {
    hide Word, SumFrom, KeySum;
    index := 0;
    var at: nat, keySize: int := 0, |key|;
    SumEnds(key);
    while keySize > 1
      invariant keySize == |key| - at && index < WORD
      invariant (index + SumFrom(key, at)) % WORD == KeySum(key)
    {
      SumStep(key, at, index);
      index := (index + Word(key[at..], if keySize >= 4 then 4 else 2)) % WORD;
      at := at + 4;
      keySize := keySize - 4;
    }
    SumDone(key, at, index);
    index := index % tableSize;
  }

  // The sum of what is left of the key
  function SumFrom(key: Key, at: nat): nat {
    if at <= |key| then KeySum(key[at..]) else 0
  }

  lemma SumEnds(key: Key)
    ensures (0 + SumFrom(key, 0)) % WORD == KeySum(key)
  {
    hide KeySum;
    assert key[0..] == key;
  }

  lemma SumDone(key: Key, at: nat, index: nat)
    requires |key| - at <= 1 && index < WORD && (index + SumFrom(key, at)) % WORD == KeySum(key)
    ensures index == KeySum(key)
  {
    assert SumFrom(key, at) == 0;
  }

  lemma SumStep(key: Key, at: nat, index: nat)
    requires at + 1 < |key|
    ensures var w := Word(key[at..], if |key| - at >= 4 then 4 else 2);
            ((index + w) % WORD + SumFrom(key, at + 4)) % WORD == (index + SumFrom(key, at)) % WORD
  {
    hide Word;
    var rest := key[at..];
    if |rest| >= 4 {
      assert rest[4..] == key[at + 4..];
      ModSum(index, Word(rest, 4), KeySum(rest[4..]));
    } else {
      ModSum(index, Word(rest, 2), 0);
    }
  }

  // Byte i counts for the place it has in its word.
  function Weighted(key: Key, n: nat): nat
    requires n <= |key|
  {
    if n == 0 then 0 else Weighted(key, n - 1) + key[n - 1] * Weight((n - 1) % 4)
  }

  function Weight(i: nat): nat {
    if i == 0 then 1 else if i == 1 then 0x100 else if i == 2 then 0x1_0000 else 0x100_0000
  }

  lemma {:induction false} WeightedSplits(key: Key, n: nat)
    requires 4 <= n <= |key|
    ensures Weighted(key, n) == Weighted(key, 4) + Weighted(key[4..], n - 4)
    decreases n
  {
    hide Weight;
    if n > 4 {
      WeightedSplits(key, n - 1);
      assert key[4..][n - 5] == key[n - 1];
      assert (n - 5) % 4 == (n - 1) % 4;
    } else {
      assert Weighted(key[4..], 0) == 0;
    }
  }

  lemma WordWeights(key: Key)
    ensures |key| >= 2 ==> Word(key, 2) == Weighted(key, 2)
    ensures |key| >= 4 ==> Word(key, 4) == Weighted(key, 4)
  {
    if |key| >= 2 {
      assert Word(key, 2) == key[0] + 256 * Word(key[1..], 1);
      assert Word(key[1..], 1) == key[1] + 256 * Word(key[1..][1..], 0);
      assert Weighted(key, 1) == Weighted(key, 0) + key[0];
      assert Weighted(key, 2) == Weighted(key, 1) + key[1] * Weight(1);
    }
    if |key| >= 4 {
      assert key[1..][1..] == key[2..] && key[2..][1..] == key[3..];
      assert Word(key, 4) == key[0] + 256 * Word(key[1..], 3);
      assert Word(key[1..], 3) == key[1] + 256 * Word(key[2..], 2);
      assert Word(key[2..], 2) == key[2] + 256 * Word(key[3..], 1);
      assert Word(key[3..], 1) == key[3] + 256 * Word(key[3..][1..], 0);
    }
  }

  lemma KeySumIs(key: Key)
    ensures Weighted(key, 0) == 0 && (|key| <= 1 ==> KeySum(key) == 0)
    ensures |key| == 2 || |key| == 3 ==> KeySum(key) == Word(key, 2) % WORD
    ensures |key| >= 4 ==> KeySum(key) == (Word(key, 4) + KeySum(key[4..])) % WORD
  {
    hide Word;
  }

  lemma ModIn(a: nat, b: nat)
    ensures (a + b % WORD) % WORD == (a + b) % WORD
  {
  }

  // The hash of a key in closed form: every byte but a last one at an odd place, weighted by its place in its word.
  lemma {:induction false} SumIsWeighted(key: Key)
    ensures KeySum(key) == Weighted(key, |key| - |key| % 2) % WORD
    decreases |key|
  {
    hide Word, Weighted, KeySum;
    WordWeights(key);
    KeySumIs(key);
    if |key| >= 4 {
      SumIsWeighted(key[4..]);
      WeightedSplits(key, |key| - |key| % 2);
      ModIn(Weighted(key, 4), Weighted(key[4..], |key| - 4 - |key| % 2));
    }
  }

  // ---- Chains ----

  class HashEntry<T> {
    const key: Key
    var data: T
    var next: HashEntry?<T>

    constructor (key: Key, data: T)
      ensures this.key == key && this.data == data && next == null
    {
      this.key, this.data, next := key, data, null;
    }
  }

  function Successor<T>(c: seq<HashEntry<T>>, i: nat): HashEntry?<T>
    requires i < |c|
  {
    if i + 1 < |c| then c[i + 1] else null
  }

  // What one chain stores, in chain order
  datatype Pair<T> = Pair(key: Key, data: T)

  // The entries of c are linked from head on and store ps; every key belongs to bucket b, and none occurs twice.
  ghost predicate Linked<T>(c: seq<HashEntry<T>>, head: HashEntry?<T>, ps: seq<Pair<T>>, b: nat, n: nat)
    requires 0 < n
    reads c
  {
    && head == (if c == [] then null else c[0])
    && |ps| == |c|
    && (forall i :: 0 <= i < |c| ==> c[i].next == Successor(c, i))
    && (forall i :: 0 <= i < |c| ==> ps[i] == Pair(c[i].key, c[i].data))
    && (forall i :: 0 <= i < |c| ==> Bucket(c[i].key, n) == b)
    && (forall i, j :: 0 <= i < j < |c| ==> c[i].key != c[j].key)
  }

  // ---- The map the chains stand for ----

  // The value a chain holds for a key
  function Find<T>(ps: seq<Pair<T>>, key: Key): Option<T> {
    if ps == [] then None else if ps[0].key == key then Some(ps[0].data) else Find(ps[1..], key)
  }

  function Get<T>(m: map<Key, T>, key: Key): Option<T> {
    if key in m then Some(m[key]) else None
  }

  // Looking a key up in its bucket is looking it up in m.
  ghost predicate Represents<T>(pairs: seq<seq<Pair<T>>>, m: map<Key, T>) {
    |pairs| > 0 && forall key :: Find(pairs[Bucket(key, |pairs|)], key) == Get(m, key)
  }

  lemma {:induction false} FindAt<T>(ps: seq<Pair<T>>, key: Key, i: nat)
    requires i <= |ps| && forall j :: 0 <= j < i ==> ps[j].key != key
    ensures i < |ps| && ps[i].key == key ==> Find(ps, key) == Some(ps[i].data)
    ensures i == |ps| ==> Find(ps, key) == None
    decreases i
  {
    if i > 0 {
      FindAt(ps[1..], key, i - 1);
    }
  }

  lemma {:induction false} FindConcat<T>(ps: seq<Pair<T>>, qs: seq<Pair<T>>, key: Key)
    ensures Find(ps + qs, key) == if Find(ps, key).Some? then Find(ps, key) else Find(qs, key)
  {
    if ps == [] {
      assert ps + qs == qs;
    } else {
      assert (ps + qs)[0] == ps[0] && (ps + qs)[1..] == ps[1..] + qs;
      FindConcat(ps[1..], qs, key);
    }
  }

  // The keys of ps from index lo up to hi are all different from key.
  ghost predicate Absent<T>(ps: seq<Pair<T>>, key: Key, lo: nat, hi: nat) {
    forall j :: lo <= j < hi && j < |ps| ==> ps[j].key != key
  }

  lemma FindAbsent<T>(ps: seq<Pair<T>>, key: Key)
    requires Absent(ps, key, 0, |ps|)
    ensures Find(ps, key) == None
  {
    FindAt(ps, key, |ps|);
  }

  lemma {:induction false} FindReplaced<T>(ps: seq<Pair<T>>, i: nat, data: T, key: Key)
    requires i < |ps| && Absent(ps, ps[i].key, 0, i)
    ensures Find(ps[i := Pair(ps[i].key, data)], key) == if key == ps[i].key then Some(data) else Find(ps, key)
  {
    var qs := ps[i := Pair(ps[i].key, data)];
    if i > 0 {
      assert qs[1..] == ps[1..][i - 1 := Pair(ps[i].key, data)];
      FindReplaced(ps[1..], i - 1, data, key);
    } else {
      assert qs[1..] == ps[1..];
    }
  }

  lemma FindBehind<T>(p: Pair<T>, ps: seq<Pair<T>>, key: Key)
    ensures Find([p] + ps, key) == if p.key == key then Some(p.data) else Find(ps, key)
  {
    assert ([p] + ps)[1..] == ps;
  }

  lemma FindRemoved<T>(ps: seq<Pair<T>>, i: nat, key: Key)
    requires i < |ps| && Absent(ps, ps[i].key, 0, i) && Absent(ps, ps[i].key, i + 1, |ps|)
    ensures Find(ps[..i] + ps[i + 1..], key) == if key == ps[i].key then None else Find(ps, key)
  {
    hide Find;
    FindConcat(ps[..i], ps[i + 1..], key);
    FindConcat(ps[..i], [ps[i]] + ps[i + 1..], key);
    assert ps == ps[..i] + ([ps[i]] + ps[i + 1..]);
    FindBehind(ps[i], ps[i + 1..], key);
    if key == ps[i].key {
      FindAbsent(ps[..i], key);
      FindAbsent(ps[i + 1..], key);
    }
  }

  // Changing one bucket changes the map at the keys of that bucket only.
  lemma RepresentsChange<T>(pairs: seq<seq<Pair<T>>>, m: map<Key, T>, b: nat, ps: seq<Pair<T>>, m': map<Key, T>)
    requires Represents(pairs, m) && b < |pairs|
    requires forall key :: Bucket(key, |pairs|) == b ==> Find(ps, key) == Get(m', key)
    requires forall key :: Bucket(key, |pairs|) != b ==> Get(m', key) == Get(m, key)
    ensures Represents(pairs[b := ps], m')
  {
    var pairs' := pairs[b := ps];
    forall key
      ensures Find(pairs'[Bucket(key, |pairs'|)], key) == Get(m', key)
    {
      assert Find(pairs[Bucket(key, |pairs|)], key) == Get(m, key);
    }
  }

  // ---- The table ----

  class HashTable<T> {
    const keySize: nat
    const entries: array<HashEntry?<T>>                  // table_entries
    ghost var chains: seq<seq<HashEntry<T>>>
    ghost var pairs: seq<seq<Pair<T>>>
    ghost var contents: map<Key, T>                      // the map the table stands for
    ghost var Repr: set<object>

    ghost predicate Valid()
      reads this, Repr
    {
      && this in Repr && entries in Repr
      && 0 < entries.Length == |chains| == |pairs|
      && (forall b, i :: 0 <= b < |chains| && 0 <= i < |chains[b]| ==> chains[b][i] in Repr)
      && (forall b :: 0 <= b < |chains| ==> Linked(chains[b], entries[b], pairs[b], b, |chains|))
      && Represents(pairs, contents)
    }

    // hash_create_table
    constructor (numEntries: nat, keySize: nat)
      requires 0 < numEntries
      ensures Valid() && fresh(Repr) && this.keySize == keySize && contents == map[]
    {
      this.keySize := keySize;
      entries := new HashEntry?<T>[numEntries](_ => null);
      chains := seq(numEntries, _ => []);
      pairs := seq(numEntries, _ => []);
      contents := map[];
      new;
      Repr := {this, entries};
    }

    // No entry is in two buckets.
    lemma ChainsDisjoint(b: nat, i: nat, b': nat, i': nat)
      requires Valid() && b < |chains| && i < |chains[b]| && b' < |chains| && i' < |chains[b']|
      requires chains[b][i] == chains[b'][i']
      ensures b == b' && i == i'
    {
      assert Linked(chains[b], entries[b], pairs[b], b, |chains|);
      assert Linked(chains[b'], entries[b'], pairs[b'], b', |chains|);
    }

    lemma BucketChain(b: nat)
      requires Valid() && b < |chains|
      ensures Linked(chains[b], entries[b], pairs[b], b, |chains|)
      ensures forall i :: 0 <= i < |chains[b]| ==> chains[b][i] in Repr
    {
    }

    // The walk along a chain all operations share: where the key is, or where a new entry would go
    method Walk(key: Key, b: nat) returns (prev: HashEntry?<T>, curr: HashEntry?<T>, ghost i: nat)
      requires Valid() && b == Bucket(key, |chains|)
      ensures i <= |chains[b]|
      ensures prev == (if i == 0 then null else chains[b][i - 1])
      ensures curr == (if i < |chains[b]| then chains[b][i] else null)
      ensures Absent(pairs[b], key, 0, i)
      ensures curr != null ==> curr.key == key && key in contents && contents[key] == curr.data
      ensures curr == null <==> key !in contents
    {
      hide Bucket, Represents, Find, Linked;
      BucketChain(b);
      ghost var c, ps := chains[b], pairs[b];
      LinkedHead(c, entries[b], ps, b, |chains|);
      prev, curr, i := null, entries[b], 0;
      while curr != null && curr.key != key
        invariant i <= |chains[b]|
        invariant prev == (if i == 0 then null else chains[b][i - 1])
        invariant curr == (if i < |chains[b]| then chains[b][i] else null)
        invariant Absent(pairs[b], key, 0, i)
        decreases |chains[b]| - i
      {
        LinkedAt(c, entries[b], ps, b, |chains|, i);
        prev, curr, i := curr, curr.next, i + 1;
      }
      if curr != null {
        LinkedAt(c, entries[b], ps, b, |chains|, i);
      }
      FindAt(pairs[b], key, i);
      Looked(pairs, contents, key);
    }

    // hash_find
    method HashFind(key: Key) returns (r: Option<T>)
      requires Valid() && |key| == keySize
      ensures r == Get(contents, key)
    {
      var b := GetHash(key, entries.Length);
      var _, curr, _ := Walk(key, b);
      return if curr == null then None else Some(curr.data);
    }

    // An entry of bucket b is in no other bucket.
    lemma NotElsewhere(b: nat, i: nat)
      requires Valid() && b < |chains| && i < |chains[b]|
      ensures forall b' :: 0 <= b' < |chains| && b' != b ==> chains[b][i] !in chains[b']
    {
      forall b' | 0 <= b' < |chains| && b' != b
        ensures chains[b][i] !in chains[b']
      {
        BucketChain(b);
        BucketChain(b');
      }
    }

    // hash_update
    method HashUpdate(key: Key, data: T) returns (r: Status)
      requires Valid() && |key| == keySize
      modifies Repr
      ensures Valid() && Repr == old(Repr)
      ensures if key in old(contents) then r == HASH_OK && contents == old(contents)[key := data]
              else r == HASH_NOENT && contents == old(contents)
    {
      hide Bucket, Represents, Find, Linked, Absent;
      var b := GetHash(key, entries.Length);
      ghost var i;
      var prev, curr;
      prev, curr, i := Walk(key, b);
      if curr == null {
        return HASH_NOENT;
      }
      LinkedPair(chains[b], entries[b], pairs[b], b, |chains|, i);
      UpdateRepresents(pairs, contents, key, i, data);
      NotElsewhere(b, i);
      StoreData(curr, data, chains[b], entries[b], pairs[b], b, |chains|, i);
      pairs := pairs[b := pairs[b][i := Pair(key, data)]];
      contents := contents[key := data];
      r := HASH_OK;
    }

    // Hang a new entry on the end of bucket b.
    method Attach(entry: HashEntry<T>, prev: HashEntry?<T>, b: nat)
      requires Valid() && b < |chains| && entry !in Repr && entry.next == null && Bucket(entry.key, |chains|) == b
      requires Absent(pairs[b], entry.key, 0, |chains[b]|)
      requires prev == if chains[b] == [] then null else chains[b][|chains[b]| - 1]
      modifies entries, if prev == null then {} else {prev}
      ensures Linked(chains[b] + [entry], entries[b], pairs[b] + [Pair(entry.key, entry.data)], b, |chains|)
      ensures forall b' :: 0 <= b' < |chains| && b' != b ==> Linked(chains[b'], entries[b'], pairs[b'], b', |chains|)
    {
      hide Bucket, Represents, Find, Linked, Absent;
      ghost var c, ps := chains[b], pairs[b];
      if prev == null {
        LinkedEmpty(c, entries[b], ps, b, |chains|);
        entries[b] := entry;
        LinkedSingle(entry, b, |chains|);
        assert c + [entry] == [entry] && ps + [Pair(entry.key, entry.data)] == [Pair(entry.key, entry.data)];
      } else {
        NotElsewhere(b, |c| - 1);
        LinkBehind(prev, entry, c, entries[b], ps, b, |chains|);
      }
    }

    // What the table stands for with that entry
    ghost method Extend(entry: HashEntry<T>, b: nat, key: Key, data: T)
      requires this in Repr && entries in Repr && 0 < entries.Length == |chains| == |pairs| && b < |chains|
      requires forall b', i :: 0 <= b' < |chains| && 0 <= i < |chains[b']| ==> chains[b'][i] in Repr
      requires Linked(chains[b] + [entry], entries[b], pairs[b] + [Pair(key, data)], b, |chains|)
      requires forall b' :: 0 <= b' < |chains| && b' != b ==> Linked(chains[b'], entries[b'], pairs[b'], b', |chains|)
      requires Represents(pairs[b := pairs[b] + [Pair(key, data)]], contents[key := data])
      modifies this`chains, this`pairs, this`contents, this`Repr
      ensures Valid() && Repr == old(Repr) + {entry} && contents == old(contents)[key := data]
    {
      hide Linked, Represents;
      chains := chains[b := chains[b] + [entry]];
      pairs := pairs[b := pairs[b] + [Pair(key, data)]];
      contents := contents[key := data];
      Repr := Repr + {entry};
    }

    // hash_enter
    method HashEnter(key: Key, data: T) returns (r: Status)
      requires Valid() && |key| == keySize
      modifies Repr
      ensures Valid() && fresh(Repr - old(Repr))
      ensures if key in old(contents) then r == HASH_EXISTS && contents == old(contents)
              else r == HASH_OK && contents == old(contents)[key := data]
    {
      hide Bucket, Represents, Find, Linked, Absent;
      var b := GetHash(key, entries.Length);
      ghost var i;
      var prev, curr;
      prev, curr, i := Walk(key, b);
      if curr != null {
        return HASH_EXISTS;
      }
      EnterRepresents(pairs, contents, key, data);
      var entry := new HashEntry<T>(key, data);
      Attach(entry, prev, b);
      Extend(entry, b, key, data);
      r := HASH_OK;
    }

    // Take entry i out of bucket b.
    method Detach(prev: HashEntry?<T>, next: HashEntry?<T>, b: nat, ghost i: nat)
      requires Valid() && b < |chains| && i < |chains[b]| && chains[b][i].next == next && |pairs[b]| == |chains[b]|
      requires prev == if i == 0 then null else chains[b][i - 1]
      modifies entries, if prev == null then {} else {prev}
      ensures Linked(chains[b][..i] + chains[b][i + 1..], entries[b], pairs[b][..i] + pairs[b][i + 1..], b, |chains|)
      ensures forall b' :: 0 <= b' < |chains| && b' != b ==> Linked(chains[b'], entries[b'], pairs[b'], b', |chains|)
    {
      hide Bucket, Represents, Find, Linked, Absent;
      ghost var c, ps := chains[b], pairs[b];
      if prev == null {
        LinkedTail(c, entries[b], ps, b, |chains|);
        entries[b] := next;
        assert c[..0] + c[1..] == c[1..] && ps[..0] + ps[1..] == ps[1..];
      } else {
        NotElsewhere(b, i - 1);
        UnlinkBehind(prev, next, c, entries[b], ps, b, |chains|, i);
      }
    }

    // hash_delete
    method HashDelete(key: Key) returns (r: Status)
      requires Valid() && |key| == keySize
      modifies Repr
      ensures Valid() && Repr == old(Repr)
      ensures if key in old(contents) then r == HASH_OK && contents == old(contents) - {key}
              else r == HASH_NOENT && contents == old(contents)
    {
      hide Bucket, Represents, Find, Linked, Absent;
      var b := GetHash(key, entries.Length);
      ghost var i;
      var prev, curr;
      prev, curr, i := Walk(key, b);
      if curr == null {
        return HASH_NOENT;
      }
      ghost var c, ps := chains[b], pairs[b];
      LinkedPair(c, entries[b], ps, b, |chains|, i);
      DeleteRepresents(pairs, contents, key, i);
      Detach(prev, curr.next, b, i);
      chains := chains[b := c[..i] + c[i + 1..]];
      pairs := pairs[b := ps[..i] + ps[i + 1..]];
      contents := contents - {key};
      r := HASH_OK;
    }
  }

  // ---- Changes to one chain ----

  lemma LinkedHead<T>(c: seq<HashEntry<T>>, head: HashEntry?<T>, ps: seq<Pair<T>>, b: nat, n: nat)
    requires 0 < n && Linked(c, head, ps, b, n)
    ensures |ps| == |c| && head == if c == [] then null else c[0]
  {
  }

  lemma LinkedAt<T>(c: seq<HashEntry<T>>, head: HashEntry?<T>, ps: seq<Pair<T>>, b: nat, n: nat, i: nat)
    requires 0 < n && Linked(c, head, ps, b, n) && i < |c|
    ensures |ps| == |c| && c[i].next == (if i + 1 < |c| then c[i + 1] else null) && ps[i] == Pair(c[i].key, c[i].data)
  {
    hide Bucket;
  }

  lemma Looked<T>(pairs: seq<seq<Pair<T>>>, m: map<Key, T>, key: Key)
    requires Represents(pairs, m)
    ensures |pairs| > 0 && Find(pairs[Bucket(key, |pairs|)], key) == Get(m, key)
  {
    hide Bucket, Find;
  }

  lemma LinkedPair<T>(c: seq<HashEntry<T>>, head: HashEntry?<T>, ps: seq<Pair<T>>, b: nat, n: nat, i: nat)
    requires 0 < n && Linked(c, head, ps, b, n) && i < |c|
    ensures |ps| == |c| && ps[i].key == c[i].key && Absent(ps, c[i].key, 0, i) && Absent(ps, c[i].key, i + 1, |ps|)
  {
  }

  lemma LinkedEmpty<T>(c: seq<HashEntry<T>>, head: HashEntry?<T>, ps: seq<Pair<T>>, b: nat, n: nat)
    requires 0 < n && Linked(c, head, ps, b, n)
    ensures c == [] ==> ps == []
  {
  }

  lemma LinkedSingle<T>(entry: HashEntry<T>, b: nat, n: nat)
    requires 0 < n && entry.next == null && Bucket(entry.key, n) == b
    ensures Linked([entry], entry, [Pair(entry.key, entry.data)], b, n)
  {
  }

  lemma LinkedTail<T>(c: seq<HashEntry<T>>, head: HashEntry?<T>, ps: seq<Pair<T>>, b: nat, n: nat)
    requires 0 < n && Linked(c, head, ps, b, n) && c != []
    ensures Linked(c[1..], c[0].next, ps[1..], b, n)
  {
    forall i | 0 <= i < |c| - 1
      ensures c[1..][i].next == Successor(c[1..], i)
    {
      assert c[1..][i] == c[i + 1];
    }
  }

  method StoreData<T>(entry: HashEntry<T>, data: T, ghost c: seq<HashEntry<T>>, ghost head: HashEntry?<T>,
                      ghost ps: seq<Pair<T>>, ghost b: nat, ghost n: nat, ghost i: nat)
    requires 0 < n && Linked(c, head, ps, b, n) && i < |c| && c[i] == entry
    modifies entry
    ensures |ps| == |c| && Linked(c, head, ps[i := Pair(entry.key, data)], b, n)
  {
    hide Bucket;
    entry.data := data;
  }

  method LinkBehind<T>(prev: HashEntry<T>, entry: HashEntry<T>, ghost c: seq<HashEntry<T>>, ghost head: HashEntry?<T>,
                       ghost ps: seq<Pair<T>>, ghost b: nat, ghost n: nat)
    requires 0 < n && Linked(c, head, ps, b, n) && c != [] && c[|c| - 1] == prev
    requires entry.next == null && entry !in c && Bucket(entry.key, n) == b && Absent(ps, entry.key, 0, |c|)
    modifies prev
    ensures Linked(c + [entry], head, ps + [Pair(entry.key, entry.data)], b, n)
  {
    hide Bucket;
    prev.next := entry;
    forall i | 0 <= i < |c| + 1
      ensures (c + [entry])[i].next == Successor(c + [entry], i)
    {
      if i < |c| - 1 {
        assert (c + [entry])[i] == c[i] && c[i] != prev;
      }
    }
  }

  method UnlinkBehind<T>(prev: HashEntry<T>, next: HashEntry?<T>, ghost c: seq<HashEntry<T>>,
                         ghost head: HashEntry?<T>, ghost ps: seq<Pair<T>>, ghost b: nat, ghost n: nat, ghost i: nat)
    requires 0 < n && Linked(c, head, ps, b, n) && 0 < i < |c| && c[i - 1] == prev && c[i].next == next
    modifies prev
    ensures |ps| == |c| && Linked(c[..i] + c[i + 1..], head, ps[..i] + ps[i + 1..], b, n)
  {
    hide Bucket, Successor;
    ghost var d, qs := c[..i] + c[i + 1..], ps[..i] + ps[i + 1..];
    Links(c, head, ps, b, n);
    prev.next := next;
    forall j | 0 <= j < |d|
      ensures d[j] == c[if j < i then j else j + 1] && qs[j] == ps[if j < i then j else j + 1]
      ensures d[j].next == Successor(d, j)
    {
      SuccessorWithout(c, i, j);
      SuccessorWithout(c, i, i - 1);
      assert j < i - 1 ==> d[j] == c[j] && c[j] != prev;
      assert j >= i ==> d[j] == c[j + 1] && c[j + 1] != prev;
    }
  }

  lemma Links<T>(c: seq<HashEntry<T>>, head: HashEntry?<T>, ps: seq<Pair<T>>, b: nat, n: nat)
    requires 0 < n && Linked(c, head, ps, b, n)
    ensures |ps| == |c| && (forall i :: 0 <= i < |c| ==> c[i].next == Successor(c, i))
    ensures forall i, j :: 0 <= i < j < |c| ==> c[i] != c[j]
  {
    hide Bucket, Successor;
  }

  // Successors in a chain without its entry i
  lemma SuccessorWithout<T>(c: seq<HashEntry<T>>, i: nat, j: nat)
    requires 0 < i < |c| && j < |c| - 1
    ensures var d := c[..i] + c[i + 1..];
            Successor(d, j) == if j < i - 1 then Successor(c, j) else if j == i - 1 then Successor(c, i) else Successor(c, j + 1)
  {
  }

  lemma UpdateRepresents<T>(pairs: seq<seq<Pair<T>>>, m: map<Key, T>, key: Key, i: nat, data: T)
    requires Represents(pairs, m)
    requires var ps := pairs[Bucket(key, |pairs|)]; i < |ps| && ps[i].key == key && Absent(ps, key, 0, i)
    ensures var b := Bucket(key, |pairs|);
            Represents(pairs[b := pairs[b][i := Pair(key, data)]], m[key := data])
  {
    hide Bucket, Find;
    var b := Bucket(key, |pairs|);
    forall k | Bucket(k, |pairs|) == b
      ensures Find(pairs[b][i := Pair(key, data)], k) == Get(m[key := data], k)
    {
      FindReplaced(pairs[b], i, data, k);
      assert Find(pairs[b], k) == Get(m, k);
    }
    RepresentsChange(pairs, m, b, pairs[b][i := Pair(key, data)], m[key := data]);
  }

  lemma EnterRepresents<T>(pairs: seq<seq<Pair<T>>>, m: map<Key, T>, key: Key, data: T)
    requires Represents(pairs, m) && key !in m
    ensures var b := Bucket(key, |pairs|);
            Represents(pairs[b := pairs[b] + [Pair(key, data)]], m[key := data])
  {
    hide Bucket;
    var b := Bucket(key, |pairs|);
    forall k | Bucket(k, |pairs|) == b
      ensures Find(pairs[b] + [Pair(key, data)], k) == Get(m[key := data], k)
    {
      FindConcat(pairs[b], [Pair(key, data)], k);
      assert Find(pairs[b], k) == Get(m, k);
    }
    RepresentsChange(pairs, m, b, pairs[b] + [Pair(key, data)], m[key := data]);
  }

  lemma DeleteRepresents<T>(pairs: seq<seq<Pair<T>>>, m: map<Key, T>, key: Key, i: nat)
    requires Represents(pairs, m)
    requires var ps := pairs[Bucket(key, |pairs|)];
             i < |ps| && ps[i].key == key && Absent(ps, key, 0, i) && Absent(ps, key, i + 1, |ps|)
    ensures var b := Bucket(key, |pairs|);
            Represents(pairs[b := pairs[b][..i] + pairs[b][i + 1..]], m - {key})
  {
    hide Bucket, Find;
    var b := Bucket(key, |pairs|);
    var ps := pairs[b][..i] + pairs[b][i + 1..];
    forall k | Bucket(k, |pairs|) == b
      ensures Find(ps, k) == Get(m - {key}, k)
    {
      FindRemoved(pairs[b], i, k);
      assert Find(pairs[b], k) == Get(m, k);
    }
    RepresentsChange(pairs, m, b, ps, m - {key});
  }
}
