/** The chained hash table of argtable3 (deps/argtable3/argtable3.c:531-715 and 874-892), with keys compared as the
    command registry does.

    The table is seen as a finite map.  Buckets are linked lists of entries; growing relinks the entries in place.
    What the links look like is stated on snapshots: the table as a sequence, the next fields as a map from entries. */
module HashTable {
  import opened Wrappers

  const PRIMES: seq<nat> := [
    53, 97, 193, 389, 769, 1543, 3079, 6151, 12289, 24593, 49157, 98317, 196613, 393241, 786433, 1572869, 3145739,
    6291469, 12582917, 25165843, 50331653, 100663319, 201326611, 402653189, 805306457, 1610612741]

  const PRIME_TABLE_LENGTH := 26

  lemma PrimesPositive(i: nat)
    requires i < PRIME_TABLE_LENGTH
    ensures i < |PRIMES| == PRIME_TABLE_LENGTH && 0 < PRIMES[i]
  {
  }

  /** The first size in the list that is large enough is the least one. */
  lemma PrimesAscend(i: nat, j: nat)
    requires i < j < PRIME_TABLE_LENGTH
    ensures |PRIMES| == PRIME_TABLE_LENGTH && PRIMES[i] < PRIMES[j]
    decreases j
  {
    if i < j - 1 {
      PrimesAscend(i, j - 1);
    }
  }

  function IndexFor(tablelength: nat, h: nat): (b: nat)
    requires 0 < tablelength
    ensures b < tablelength
  {
    h % tablelength
  }

  /** ceil (size * max_load_factor), where the float 0.65 is 10905190 / 2^24. */
  function LoadLimit(size: nat): nat {
    (size * 10905190 + 16777215) / 16777216
  }

  class Entry<V> {
    const k: string
    const h: nat
    var v: V
    var next: Entry?<V>

    constructor (k: string, h: nat, v: V, next: Entry?<V>)
      ensures this.k == k && this.h == h && this.v == v && this.next == next
    {
      this.k, this.h, this.v, this.next := k, h, v, next;
    }
  }

  // ---------------------------------------------------------------------------------------------------
  // Buckets as linked lists
  // ---------------------------------------------------------------------------------------------------

  ghost function At<V>(c: seq<Entry<V>>, i: nat): Entry?<V> {
    if i < |c| then c[i] else null
  }

  ghost predicate Linked<V>(head: Entry?<V>, c: seq<Entry<V>>, next: map<Entry<V>, Entry?<V>>) {
    head == At(c, 0) && forall i | 0 <= i < |c| :: c[i] in next && next[c[i]] == At(c, i + 1)
  }

  /** Distinct entries that belong in bucket b of len buckets. */
  ghost predicate Placed<V>(c: seq<Entry<V>>, b: nat, len: nat)
    requires 0 < len
  {
    && (forall i, j | 0 <= i < j < |c| :: c[i] != c[j])
    && (forall i | 0 <= i < |c| :: IndexFor(len, c[i].h) == b)
  }

  /** Every entry with a next field is in exactly one chain, the chain of its bucket; the table links the chains. */
  ghost predicate Buckets<V>(table: seq<Entry?<V>>, next: map<Entry<V>, Entry?<V>>, chains: seq<seq<Entry<V>>>) {
    && |chains| == |table| && 0 < |chains|
    && (forall b | 0 <= b < |chains| :: Placed(chains[b], b, |chains|) && Linked(table[b], chains[b], next))
    && (forall e | e in next :: e in chains[IndexFor(|chains|, e.h)])
  }

  ghost function KeysOf<V>(nodes: set<Entry<V>>): set<string> {
    set e | e in nodes :: e.k
  }

  /** The finite map that entries with these values stand for. */
  ghost predicate Represents<V>(value: map<Entry<V>, V>, m: map<string, V>) {
    && (forall e | e in value :: e.k in m && m[e.k] == value[e])
    && m.Keys <= KeysOf(value.Keys)
    && (forall e, e' | e in value && e' in value && e.k == e'.k :: e == e')
  }

  lemma BucketsShape<V>(table: seq<Entry?<V>>, next: map<Entry<V>, Entry?<V>>, chains: seq<seq<Entry<V>>>)
    requires Buckets(table, next, chains)
    ensures |chains| == |table| && 0 < |table|
    ensures forall b | 0 <= b < |chains| :: table[b] == At(chains[b], 0)
    ensures forall b | 0 <= b < |chains| :: forall i | 0 <= i < |chains[b]| :: chains[b][i] in next
  {
    forall b | 0 <= b < |chains|
      ensures table[b] == At(chains[b], 0) && forall i | 0 <= i < |chains[b]| :: chains[b][i] in next
    {
      assert Linked(table[b], chains[b], next);
    }
  }

  lemma BucketAt<V>(table: seq<Entry?<V>>, next: map<Entry<V>, Entry?<V>>, chains: seq<seq<Entry<V>>>, b: nat)
    requires Buckets(table, next, chains) && b < |chains|
    ensures Placed(chains[b], b, |chains|) && Linked(table[b], chains[b], next)
  {
  }

  /** An entry of a chain has a next field, which holds the entry behind it. */
  lemma EntryAt<V>(table: seq<Entry?<V>>, next: map<Entry<V>, Entry?<V>>, chains: seq<seq<Entry<V>>>, b: nat, p: nat)
    requires Buckets(table, next, chains) && b < |chains| && p < |chains[b]|
    ensures chains[b][p] in next && next[chains[b][p]] == At(chains[b], p + 1)
  {
    hide Placed, IndexFor;
    BucketAt(table, next, chains, b);
  }

  /** A chain does not notice changes to the next fields of entries from other buckets. */
  lemma OtherChain<V>(head: Entry?<V>, c: seq<Entry<V>>, b: nat, len: nat,
                      next: map<Entry<V>, Entry?<V>>, next': map<Entry<V>, Entry?<V>>, b': nat)
    requires 0 < len && b != b' && Placed(c, b, len) && Linked(head, c, next)
    requires forall e | e in next && IndexFor(len, e.h) != b' :: e in next' && next'[e] == next[e]
    ensures Linked(head, c, next')
  {
  }

  lemma PushChain<V>(head: Entry?<V>, c: seq<Entry<V>>, b: nat, len: nat, next: map<Entry<V>, Entry?<V>>, e: Entry<V>)
    requires 0 < len && Placed(c, b, len) && Linked(head, c, next) && e !in next && IndexFor(len, e.h) == b
    ensures Placed([e] + c, b, len) && Linked(e, [e] + c, next[e := head])
  {
    var c' := [e] + c;
    forall i | 0 < i < |c'|
      ensures c'[i] == c[i - 1]
    {
    }
  }

  /** A new entry in front of its chain. */
  lemma BucketsPush<V>(table: seq<Entry?<V>>, next: map<Entry<V>, Entry?<V>>, chains: seq<seq<Entry<V>>>, e: Entry<V>)
    requires Buckets(table, next, chains) && e !in next
    ensures var b := IndexFor(|table|, e.h);
            Buckets(table[b := e], next[e := table[b]], chains[b := [e] + chains[b]])
  {
    hide Placed, Linked, IndexFor;
    var b := IndexFor(|table|, e.h);
    var c, next' := [e] + chains[b], next[e := table[b]];
    BucketAt(table, next, chains, b);
    PushChain(table[b], chains[b], b, |chains|, next, e);
    forall i | 0 <= i < |chains| && i != b
      ensures Placed(chains[i], i, |chains|) && Linked(table[i], chains[i], next')
    {
      BucketAt(table, next, chains, i);
      OtherChain(table[i], chains[i], i, |chains|, next, next', b);
    }
    forall x | x in next'
      ensures x in chains[b := c][IndexFor(|chains|, x.h)]
    {
      if x == e {
        assert c[0] == e;
      } else {
        assert x in chains[IndexFor(|chains|, x.h)];
      }
    }
  }

  /** The next fields after the entry at position p of chain c is taken out. */
  ghost function Unlink<V>(c: seq<Entry<V>>, next: map<Entry<V>, Entry?<V>>, p: nat): map<Entry<V>, Entry?<V>>
    requires p < |c| && c[p] in next
  {
    if p == 0 then next - {c[p]} else (next - {c[p]})[c[p - 1] := next[c[p]]]
  }

  lemma RemovedAt<V>(c: seq<Entry<V>>, p: nat, i: nat)
    requires p < |c| && i < |c| - 1
    ensures (c[..p] + c[p + 1..])[i] == if i < p then c[i] else c[i + 1]
  {
  }

  lemma UnlinkPlaced<V>(c: seq<Entry<V>>, b: nat, len: nat, p: nat)
    requires 0 < len && Placed(c, b, len) && p < |c|
    ensures Placed(c[..p] + c[p + 1..], b, len)
  {
    var c' := c[..p] + c[p + 1..];
    forall i, j | 0 <= i < j < |c'|
      ensures c'[i] != c'[j]
    {
      RemovedAt(c, p, i);
      RemovedAt(c, p, j);
    }
    forall i | 0 <= i < |c'|
      ensures IndexFor(len, c'[i].h) == b
    {
      RemovedAt(c, p, i);
    }
  }

  lemma UnlinkNext<V>(c: seq<Entry<V>>, next: map<Entry<V>, Entry?<V>>, p: nat, i: nat)
    requires p < |c| && i < |c| && i != p && c[p] in next && c[i] in next
    requires c[i] != c[p] && (p > 0 && i != p - 1 ==> c[i] != c[p - 1])
    ensures c[i] in Unlink(c, next, p)
    ensures Unlink(c, next, p)[c[i]] == if p > 0 && i == p - 1 then next[c[p]] else next[c[i]]
  {
  }

  lemma UnlinkChain<V>(head: Entry?<V>, c: seq<Entry<V>>, b: nat, len: nat, next: map<Entry<V>, Entry?<V>>, p: nat)
    requires 0 < len && Placed(c, b, len) && Linked(head, c, next) && p < |c| && c[p] in next
    ensures Placed(c[..p] + c[p + 1..], b, len)
    ensures Linked(if p == 0 then next[c[0]] else head, c[..p] + c[p + 1..], Unlink(c, next, p))
  {
    hide Unlink;
    UnlinkPlaced(c, b, len, p);
    var c' := c[..p] + c[p + 1..];
    forall i | 0 <= i < |c'|
      ensures c'[i] in Unlink(c, next, p) && Unlink(c, next, p)[c'[i]] == At(c', i + 1)
    {
      RemovedAt(c, p, i);
      UnlinkNext(c, next, p, if i < p then i else i + 1);
      if i + 1 < |c'| {
        RemovedAt(c, p, i + 1);
      }
    }
    if c' != [] {
      RemovedAt(c, p, 0);
    }
  }

  /** The entry at position p of chain b taken out: its predecessor, or the table, skips it. */
  lemma BucketsRemove<V>(table: seq<Entry?<V>>, next: map<Entry<V>, Entry?<V>>, chains: seq<seq<Entry<V>>>,
                         b: nat, p: nat)
    requires Buckets(table, next, chains) && b < |chains| && p < |chains[b]| && chains[b][p] in next
    ensures var c := chains[b];
            Buckets(table[b := if p == 0 then next[c[0]] else table[b]], Unlink(c, next, p),
                    chains[b := c[..p] + c[p + 1..]])
  {
    hide Placed, Linked, IndexFor, Unlink;
    var c := chains[b];
    var c', next' := c[..p] + c[p + 1..], Unlink(c, next, p);
    BucketAt(table, next, chains, b);
    UnlinkChain(table[b], c, b, |chains|, next, p);
    UnlinkOutside(c, b, |chains|, next, p);
    forall i | 0 <= i < |chains| && i != b
      ensures Placed(chains[i], i, |chains|) && Linked(table[i], chains[i], next')
    {
      BucketAt(table, next, chains, i);
      OtherChain(table[i], chains[i], i, |chains|, next, next', b);
    }
    forall x | x in next'
      ensures x in chains[b := c'][IndexFor(|chains|, x.h)]
    {
      assert x in chains[IndexFor(|chains|, x.h)];
      if IndexFor(|chains|, x.h) == b {
        StaysInChain(c, p, x);
      }
    }
  }

  lemma UnlinkOutside<V>(c: seq<Entry<V>>, b: nat, len: nat, next: map<Entry<V>, Entry?<V>>, p: nat)
    requires 0 < len && Placed(c, b, len) && p < |c| && (forall i | 0 <= i < |c| :: c[i] in next)
    ensures forall e | e in next && IndexFor(len, e.h) != b ::
      e in Unlink(c, next, p) && Unlink(c, next, p)[e] == next[e]
    ensures forall e | e in Unlink(c, next, p) :: e in next && e != c[p]
  {
  }

  lemma StaysInChain<V>(c: seq<Entry<V>>, p: nat, x: Entry<V>)
    requires p < |c| && x in c && x != c[p]
    ensures x in c[..p] + c[p + 1..]
  {
    var i :| 0 <= i < |c| && c[i] == x;
    assert (c[..p] + c[p + 1..])[if i < p then i else i - 1] == x;
  }

  // ---------------------------------------------------------------------------------------------------
  // The table
  // ---------------------------------------------------------------------------------------------------

  ghost function Nexts<V>(nodes: set<Entry<V>>): map<Entry<V>, Entry?<V>>
    reads nodes
  {
    map e | e in nodes :: e.next
  }

  ghost function Values<V>(nodes: set<Entry<V>>): map<Entry<V>, V>
    reads nodes
  {
    map e | e in nodes :: e.v
  }

  lemma SnapshotKeys<V>(nodes: set<Entry<V>>)
    ensures Nexts(nodes).Keys == nodes && Values(nodes).Keys == nodes
  {
  }

  lemma SnapshotEntry<V>(nodes: set<Entry<V>>, e: Entry<V>)
    requires e in nodes
    ensures Nexts(nodes)[e] == e.next && Values(nodes)[e] == e.v
  {
  }

  lemma RepresentsEntry<V>(value: map<Entry<V>, V>, m: map<string, V>, e: Entry<V>)
    requires Represents(value, m) && e in value
    ensures e.k in m && m[e.k] == value[e]
  {
  }

  /** A key that is not in the chain of its hash is in no entry. */
  lemma NotInChain<V>(table: seq<Entry?<V>>, next: map<Entry<V>, Entry?<V>>, chains: seq<seq<Entry<V>>>,
                      value: map<Entry<V>, V>, m: map<string, V>, hash: string -> nat, k: string)
    requires Buckets(table, next, chains) && Represents(value, m) && value.Keys == next.Keys
    requires forall e | e in next :: e.h == hash(e.k)
    requires var c := chains[IndexFor(|chains|, hash(k))]; forall j | 0 <= j < |c| :: c[j].k != k
    ensures k !in m
  {
    hide Placed, Linked, IndexFor;
    forall x | x in value
      ensures x.k != k
    {
      assert x in next && x in chains[IndexFor(|chains|, x.h)];
    }
    assert k in m ==> k in KeysOf(value.Keys);
  }

  lemma RepresentsAdd<V>(value: map<Entry<V>, V>, m: map<string, V>, e: Entry<V>, v: V)
    requires Represents(value, m) && e.k !in m
    ensures Represents(value[e := v], m[e.k := v])
    ensures |m[e.k := v]| == |m| + 1
  {
  }

  lemma RepresentsChange<V>(value: map<Entry<V>, V>, m: map<string, V>, e: Entry<V>, v: V)
    requires Represents(value, m) && e in value
    ensures Represents(value[e := v], m[e.k := v])
    ensures e.k in m && |m[e.k := v]| == |m|
  {
    assert m[e.k := v].Keys == m.Keys;
  }

  lemma RepresentsDrop<V>(value: map<Entry<V>, V>, m: map<string, V>, e: Entry<V>)
    requires Represents(value, m) && e in value
    ensures Represents(value - {e}, m - {e.k})
    ensures |m - {e.k}| == |m| - 1
  {
    forall k | k in (m - {e.k}).Keys
      ensures k in KeysOf((value - {e}).Keys)
    {
      var x :| x in value.Keys && x.k == k;
      assert x in (value - {e}).Keys;
    }
    assert (m - {e.k}).Keys == m.Keys - {e.k};
  }

  class Table<V> {
    var table: array<Entry?<V>>
    var primeindex: nat
    var entrycount: nat
    var loadlimit: nat
    /** `enhanced_hash` applied to the table's hash function. */
    const hash: string -> nat
    ghost var chains: seq<seq<Entry<V>>>
    ghost var nodes: set<Entry<V>>
    ghost var contents: map<string, V>

    ghost predicate Valid()
      reads this, table, nodes
    {
      && Buckets(table[..], Nexts(nodes), chains)
      && Represents(Values(nodes), contents)
      && (forall e | e in nodes :: e.h == hash(e.k))
      && primeindex < PRIME_TABLE_LENGTH
      && entrycount == |contents|
    }

    /** The parts of `Valid`, for proofs that take it apart and put it together by name. */
    ghost predicate Hashed()
      reads this
    {
      forall e | e in nodes :: e.h == hash(e.k)
    }

    ghost predicate Counted()
      reads this
    {
      primeindex < PRIME_TABLE_LENGTH && entrycount == |contents|
    }

    lemma ValidParts()
      requires Valid()
      ensures Buckets(table[..], Nexts(nodes), chains) && Represents(Values(nodes), contents) && Hashed() && Counted()
    {
    }

    /** Record a new state of the buckets. */
    ghost method Install(chains': seq<seq<Entry<V>>>, nodes': set<Entry<V>>, contents': map<string, V>)
      requires Buckets(table[..], Nexts(nodes'), chains') && Represents(Values(nodes'), contents')
      requires (forall e | e in nodes' :: e.h == hash(e.k))
      requires primeindex < PRIME_TABLE_LENGTH && entrycount == |contents'|
      modifies `chains, `nodes, `contents
      ensures Valid() && chains == chains' && nodes == nodes' && contents == contents'
    {
      hide Buckets, Represents, Nexts, Values;
      chains, nodes, contents := chains', nodes', contents';
    }

    /** `arg_hashtable_create`: a size of more than 2^30 is turned down. */
    static method Create(minsize: nat, hash: string -> nat) returns (t: Table?<V>)
      ensures t == null <==> minsize > 0x4000_0000
      ensures t != null ==>
        && fresh(t) && fresh(t.table) && t.Valid() && t.contents == map[] && t.nodes == {} && t.hash == hash
        && LeastPrime(t.table.Length, t.primeindex, minsize)
    {
      if minsize > 0x4000_0000 {
        return null;
      }
      t := new Table(minsize, hash);
    }

    /** The least entry of the list of primes that is greater than minsize. */
    static predicate LeastPrime(size: nat, pindex: nat, minsize: nat) {
      pindex < |PRIMES| && size == PRIMES[pindex] > minsize && forall i | 0 <= i < pindex :: PRIMES[i] <= minsize
    }

    /** The table that it makes otherwise. */
    constructor (minsize: nat, hash: string -> nat)
      requires minsize <= 0x4000_0000
      ensures Valid() && contents == map[] && fresh(table) && nodes == {} && this.hash == hash
      ensures LeastPrime(table.Length, primeindex, minsize)
    {
      var size := PRIMES[0];
      var pindex := 0;
      while pindex < |PRIMES| && PRIMES[pindex] <= minsize
        invariant 0 <= pindex <= |PRIMES|
        invariant forall i | 0 <= i < pindex :: PRIMES[i] <= minsize
      {
        pindex := pindex + 1;
      }
      assert pindex < |PRIMES| by { assert PRIMES[25] == 1610612741; }
      size := PRIMES[pindex];
      table := new Entry?<V>[size](_ => null);
      primeindex, entrycount, loadlimit := pindex, 0, LoadLimit(size);
      this.hash := hash;
      chains, nodes, contents := seq(size, _ => []), {}, map[];
    }

    /** The entry with key k, the one before it in its chain, and its position, as the search loops find them. */
    method Lookup(k: string) returns (e: Entry?<V>, parent: Entry?<V>, ghost p: nat)
      requires Valid()
      ensures e == null <==> k !in contents
      ensures |chains| == table.Length && 0 < table.Length
      ensures e != null ==> && e in nodes && e.k == k && contents[k] == e.v
                            && FoundAt(e, parent, IndexFor(table.Length, hash(k)), p)
    {
      hide Buckets, Represents, Nexts, Values, Valid, Linked, Placed, IndexFor;
      ValidParts();
      SnapshotKeys(nodes);
      BucketsShape(table[..], Nexts(nodes), chains);
      var hashvalue := hash(k);
      var index := IndexFor(table.Length, hashvalue);
      ghost var c := chains[index];
      e, parent, p := table[index], null, 0;
      while e != null
        invariant p <= |c| && e == At(c, p)
        invariant parent == if p == 0 then null else c[p - 1]
        invariant forall j | 0 <= j < p :: c[j].k != k
        decreases |c| - p
      {
        EntryAt(table[..], Nexts(nodes), chains, index, p);
        SnapshotEntry(nodes, e);
        if hashvalue == e.h && k == e.k {
          RepresentsEntry(Values(nodes), contents, e);
          return;
        }
        parent := e;
        e := e.next;
        p := p + 1;
      }
      NotInChain(table[..], Nexts(nodes), chains, Values(nodes), contents, hash, k);
    }

    /** e is at position p of chain b, behind parent. */
    ghost predicate FoundAt(e: Entry<V>, parent: Entry?<V>, b: nat, p: nat)
      reads this
    {
      && b < |chains| && p < |chains[b]| && chains[b][p] == e
      && parent == if p == 0 then null else chains[b][p - 1]
    }

    /** `arg_hashtable_search`. */
    method Search(k: string) returns (r: Option<V>)
      requires Valid()
      ensures r == if k in contents then Some(contents[k]) else None
    {
      hide Buckets, Represents;
      var e, parent, p := Lookup(k);
      if e != null {
        return Some(e.v);
      }
      return None;
    }

    /** `arg_hashtable_change`. */
    method Change(k: string, v: V) returns (changed: bool)
      requires Valid()
      modifies this`contents, nodes
      ensures Valid() && changed == (k in old(contents))
      ensures contents == if changed then old(contents)[k := v] else old(contents)
    {
      hide Buckets, Represents;
      var e, parent, p := Lookup(k);
      if e == null {
        return false;
      }
      ghost var was := Values(nodes);
      RepresentsChange(was, contents, e, v);
      e.v := v;
      contents := contents[k := v];
      assert Values(nodes) == was[e := v];
      assert Nexts(nodes) == old(Nexts(nodes));
      return true;
    }

    /** `arg_hashtable_insert`.  What a table with a duplicate key returns is undefined by its interface. */
    method Insert(k: string, v: V)
      requires Valid() && k !in contents
      modifies this, table, nodes
      ensures Valid() && contents == old(contents)[k := v]
      ensures table == old(table) || fresh(table)
      ensures fresh(nodes - old(nodes))
    {
      hide Buckets, Represents;
      if entrycount + 1 > loadlimit {
        var _ := Expand();                                     // an insertion goes on without it
      }
      Push(k, v);
    }

    method Push(k: string, v: V)
      requires Valid() && k !in contents
      modifies this`chains, this`nodes, this`contents, this`entrycount, table
      ensures Valid() && contents == old(contents)[k := v]
      ensures fresh(nodes - old(nodes))
    {
      hide Buckets, Represents, Nexts, Values, Valid, IndexFor, At;
      ValidParts();
      ghost var next, value := Nexts(nodes), Values(nodes);
      SnapshotKeys(nodes);
      BucketsShape(table[..], next, chains);
      var h := hash(k);
      var index := IndexFor(table.Length, h);
      var e := HookIn(table, k, h, v, nodes);
      BucketsPush(old(table[..]), next, chains, e);
      RepresentsAdd(value, contents, e, v);
      entrycount := entrycount + 1;
      Install(chains[index := [e] + chains[index]], nodes + {e}, contents[k := v]);
    }

    /** Allocate an entry and put it in front of its bucket. */
    static method HookIn(table: array<Entry?<V>>, k: string, h: nat, v: V, ghost nodes: set<Entry<V>>)
      returns (e: Entry<V>)
      requires 0 < table.Length
      modifies table
      ensures fresh(e) && e.k == k && e.h == h
      ensures var b := IndexFor(table.Length, h);
              && table[..] == old(table[..])[b := e]
              && Nexts(nodes + {e}) == old(Nexts(nodes))[e := old(table[b])]
      ensures Values(nodes + {e}) == old(Values(nodes))[e := v]
    {
      var index := IndexFor(table.Length, h);
      e := new Entry(k, h, v, table[index]);
      table[index] := e;
    }

    /** `arg_hashtable_expand`: relink every entry into a table of the next prime size. */
    method Expand() returns (expanded: bool)
      requires Valid()
      modifies `table, `chains, `nodes, `contents, `primeindex, `loadlimit, table, nodes`next
      ensures Valid() && contents == old(contents) && nodes == old(nodes)
      ensures expanded == (old(primeindex) < PRIME_TABLE_LENGTH - 1)
      ensures if expanded then fresh(table) else table == old(table)
      ensures primeindex == old(primeindex) + if expanded then 1 else 0
      ensures expanded ==> table.Length == PRIMES[primeindex] && loadlimit == LoadLimit(table.Length)
    {
      hide Buckets, Represents, Nexts, Values, PRIMES, Valid;
      ValidParts();
      if primeindex == PRIME_TABLE_LENGTH - 1 {
        return false;
      }
      primeindex := primeindex + 1;
      PrimesPositive(primeindex);
      var newsize := PRIMES[primeindex];
      var newtable := new Entry?<V>[newsize](_ => null);
      ghost var built := Relink(table, newtable, nodes, chains);
      table := newtable;
      loadlimit := LoadLimit(newsize);
      Install(built, nodes, contents);
      return true;
    }

    /** The loop of `arg_hashtable_expand` over the old buckets. */
    static method Relink(table: array<Entry?<V>>, newtable: array<Entry?<V>>,
                         ghost nodes: set<Entry<V>>, ghost chains: seq<seq<Entry<V>>>)
      returns (ghost built: seq<seq<Entry<V>>>)
      requires Buckets(table[..], Nexts(nodes), chains)
      requires table != newtable && 0 < newtable.Length && forall b | 0 <= b < newtable.Length :: newtable[b] == null
      modifies table, newtable, nodes`next
      ensures Buckets(newtable[..], Nexts(nodes), built) && Values(nodes) == old(Values(nodes))
    {
      hide Buckets, Nexts;
      BucketsEmpty<V>(newtable[..]);
      BucketsShape(table[..], Nexts(nodes), chains);
      ghost var left, moved, rest := nodes, {}, chains;
      built := seq(newtable.Length, _ => []);
      var i := 0;
      while i < table.Length
        invariant 0 <= i <= table.Length
        invariant left + moved == nodes && left !! moved
        invariant Buckets(table[..], Nexts(left), rest) && Buckets(newtable[..], Nexts(moved), built)
        invariant |rest| == table.Length && forall j | 0 <= j < i :: rest[j] == []
      {
        left, moved, rest, built := Drain(table, newtable, i, left, moved, rest, built);
        i := i + 1;
      }
      NothingLeft(table[..], Nexts(left), rest, left);
      assert moved == nodes;
    }

    /** The inner loop of `arg_hashtable_expand`: move the entries of bucket i over, one at a time. */
    static method Drain(table: array<Entry?<V>>, newtable: array<Entry?<V>>, i: nat,
                        ghost left0: set<Entry<V>>, ghost moved0: set<Entry<V>>,
                        ghost rest0: seq<seq<Entry<V>>>, ghost built0: seq<seq<Entry<V>>>)
      returns (ghost left: set<Entry<V>>, ghost moved: set<Entry<V>>,
               ghost rest: seq<seq<Entry<V>>>, ghost built: seq<seq<Entry<V>>>)
      requires i < table.Length && table != newtable && left0 !! moved0
      requires Buckets(table[..], Nexts(left0), rest0) && Buckets(newtable[..], Nexts(moved0), built0)
      modifies table, newtable, left0`next
      ensures Buckets(table[..], Nexts(left), rest) && Buckets(newtable[..], Nexts(moved), built)
      ensures left + moved == left0 + moved0 && left !! moved
      ensures |rest| == |rest0| && rest[i] == [] && forall j | 0 <= j < |rest| && j != i :: rest[j] == rest0[j]
    {
      hide Buckets, Nexts, Values;
      left, moved, rest, built := left0, moved0, rest0, built0;
      BucketsShape(table[..], Nexts(left), rest);
      while table[i] != null
        invariant Buckets(table[..], Nexts(left), rest) && Buckets(newtable[..], Nexts(moved), built)
        invariant left + moved == left0 + moved0 && left !! moved && left <= left0
        invariant |rest| == |rest0| == table.Length && table[i] == At(rest[i], 0)
        invariant forall j | 0 <= j < |rest| && j != i :: rest[j] == rest0[j]
        decreases |rest[i]|
      {
        var e := table[i];
        SnapshotKeys(left);
        SnapshotKeys(moved);
        MoveFacts(table[..], Nexts(left), rest, i, newtable[..], Nexts(moved), built);
        MoveEntry(table, newtable, i, e, left, moved);
        ghost var index := IndexFor(newtable.Length, e.h);
        left, moved := left - {e}, moved + {e};
        rest, built := rest[i := rest[i][1..]], built[index := [e] + built[index]];
        BucketsShape(table[..], Nexts(left), rest);
      }
    }

    /** The pointer changes that move the first entry e of bucket i to the front of its bucket in newtable. */
    static method MoveEntry(table: array<Entry?<V>>, newtable: array<Entry?<V>>, i: nat, e: Entry<V>,
                            ghost left: set<Entry<V>>, ghost moved: set<Entry<V>>)
      requires i < table.Length && 0 < newtable.Length && table != newtable && e in left && e !in moved
      modifies table, newtable, e`next
      ensures table[..] == old(table[..])[i := old(Nexts(left))[e]]
      ensures var b := IndexFor(newtable.Length, e.h);
              && newtable[..] == old(newtable[..])[b := e]
              && Nexts(moved + {e}) == old(Nexts(moved))[e := old(newtable[b])]
      ensures Nexts(left - {e}) == old(Nexts(left)) - {e}
    {
      table[i] := e.next;
      var index := IndexFor(newtable.Length, e.h);
      e.next := newtable[index];
      newtable[index] := e;
    }

    /** The pointer changes that take e out of chain c. */
    static method SpliceOut(table: array<Entry?<V>>, e: Entry<V>, parent: Entry?<V>, index: nat,
                            ghost nodes: set<Entry<V>>, ghost c: seq<Entry<V>>, ghost p: nat)
      requires index < table.Length && p < |c| && c[p] == e && e in nodes
      requires parent == if p == 0 then null else c[p - 1]
      requires parent != null ==> parent in nodes && parent != e
      modifies table, nodes`next
      ensures table[..] == old(table[..])[index := if p == 0 then old(Nexts(nodes))[e] else old(table[index])]
      ensures Nexts(nodes - {e}) == Unlink(c, old(Nexts(nodes)), p)
      ensures e.next == old(e.next) && Values(nodes - {e}) == old(Values(nodes)) - {e}
    {
      if parent == null {
        table[index] := e.next;
      } else {
        parent.next := e.next;
      }
    }

    /** Take e out of its chain: its predecessor, or the table, skips it. */
    method Unhook(e: Entry<V>, parent: Entry?<V>, index: nat, ghost p: nat)
      requires Valid() && e in nodes && index < table.Length && FoundAt(e, parent, index, p)
      modifies `chains, `nodes, `contents, `entrycount, table, nodes`next
      ensures Valid() && contents == old(contents) - {e.k} && nodes == old(nodes) - {e}
      ensures chains == old(chains)[index := old(chains)[index][..p] + old(chains)[index][p + 1..]]
      ensures e.next == old(e.next)
    {
      hide Buckets, Represents, Unlink, Nexts, Values, Valid, IndexFor, At;
      ValidParts();
      ghost var next, value, c := Nexts(nodes), Values(nodes), chains[index];
      SnapshotKeys(nodes);
      UnhookFacts(table[..], next, chains, index, p);
      RepresentsDrop(value, contents, e);
      SpliceOut(table, e, parent, index, nodes, c, p);
      entrycount := entrycount - 1;
      Install(chains[index := c[..p] + c[p + 1..]], nodes - {e}, contents - {e.k});
    }

    /** `arg_hashtable_remove`. */
    method Remove(k: string)
      requires Valid()
      modifies `chains, `nodes, `contents, `entrycount, table, nodes`next
      ensures Valid() && contents == old(contents) - {k} && nodes <= old(nodes)
    {
      hide Buckets, Represents;
      var e, parent, p := Lookup(k);
      if e != null {
        Unhook(e, parent, IndexFor(table.Length, hash(k)), p);
      } else {
        assert contents - {k} == contents;
      }
    }
  }

  lemma UnhookFacts<V>(table: seq<Entry?<V>>, next: map<Entry<V>, Entry?<V>>, chains: seq<seq<Entry<V>>>,
                       b: nat, p: nat)
    requires Buckets(table, next, chains) && b < |chains| && p < |chains[b]|
    ensures |table| == |chains| && chains[b][p] in next
    ensures p > 0 ==> chains[b][p - 1] in next && chains[b][p - 1] != chains[b][p]
    ensures var c := chains[b];
            Buckets(table[b := if p == 0 then next[c[p]] else table[b]], Unlink(c, next, p),
                    chains[b := c[..p] + c[p + 1..]])
  {
    BucketAt(table, next, chains, b);
    BucketsRemove(table, next, chains, b, p);
  }

  lemma MoveFacts<V>(t: seq<Entry?<V>>, next: map<Entry<V>, Entry?<V>>, rest: seq<seq<Entry<V>>>, i: nat,
                     n: seq<Entry?<V>>, next': map<Entry<V>, Entry?<V>>, built: seq<seq<Entry<V>>>)
    requires Buckets(t, next, rest) && Buckets(n, next', built) && next.Keys !! next'.Keys
    requires i < |rest| && rest[i] != []
    ensures |t| == |rest| && |n| == |built| && 0 < |n|
    ensures var e := rest[i][0];
            && e in next && e !in next' && t[i] == e
            && Buckets(t[i := next[e]], next - {e}, rest[i := rest[i][1..]])
            && var b := IndexFor(|n|, e.h);
               Buckets(n[b := e], next'[e := n[b]], built[b := [e] + built[b]])
  {
    hide Buckets, Placed, IndexFor, Unlink;
    var e := rest[i][0];
    BucketsShape(t, next, rest);
    BucketsShape(n, next', built);
    assert e in next.Keys;
    BucketsRemove(t, next, rest, i, 0);
    UnlinkFirst(rest[i], next);
    BucketsPush(n, next', built, e);
  }

  lemma UnlinkFirst<V>(c: seq<Entry<V>>, next: map<Entry<V>, Entry?<V>>)
    requires c != [] && c[0] in next
    ensures Unlink(c, next, 0) == next - {c[0]} && c[..0] + c[1..] == c[1..]
  {
  }

  lemma BucketsEmpty<V>(table: seq<Entry?<V>>)
    requires 0 < |table| && forall b | 0 <= b < |table| :: table[b] == null
    ensures Buckets(table, Nexts({}), seq(|table|, _ => []))
  {
  }

  lemma NothingLeft<V>(table: seq<Entry?<V>>, next: map<Entry<V>, Entry?<V>>, chains: seq<seq<Entry<V>>>,
                       left: set<Entry<V>>)
    requires Buckets(table, next, chains) && next == Nexts(left) && forall b | 0 <= b < |chains| :: chains[b] == []
    ensures left == {}
  {
    SnapshotKeys(left);
    assert forall e | e in next :: e in chains[IndexFor(|chains|, e.h)];
  }
}
