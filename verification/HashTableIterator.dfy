/** Walking a hash table, with removal on the way (deps/argtable3/argtable3.c:747-846). */
module HashTableIterator {
  import opened HashTable

  /** The entries of consecutive chains, in the order of a walk. */
  ghost function Flatten<V>(cs: seq<seq<Entry<V>>>): seq<Entry<V>> {
    if cs == [] then [] else cs[0] + Flatten(cs[1..])
  }

  /** What is left of a walk that stands at position q of chain b. */
  ghost function From<V>(cs: seq<seq<Entry<V>>>, b: nat, q: nat): seq<Entry<V>>
    requires b < |cs| && q <= |cs[b]|
  {
    cs[b][q..] + Flatten(cs[b + 1..])
  }

  lemma {:induction false} SkipEmpty<V>(cs: seq<seq<Entry<V>>>, b: nat, n: nat)
    requires b <= n <= |cs| && forall j | b <= j < n :: cs[j] == []
    ensures Flatten(cs[b..]) == Flatten(cs[n..])
    decreases n - b
  {
    if b < n {
      assert cs[b..][1..] == cs[b + 1..];
      SkipEmpty(cs, b + 1, n);
    }
  }

  lemma FlattenEnd<V>(cs: seq<seq<Entry<V>>>)
    ensures Flatten(cs[|cs|..]) == []
  {
  }

  lemma FlattenFrom<V>(cs: seq<seq<Entry<V>>>, b: nat)
    requires b < |cs|
    ensures Flatten(cs[b..]) == From(cs, b, 0)
  {
    assert cs[b..][1..] == cs[b + 1..];
    assert cs[b][0..] == cs[b];
  }

  lemma {:induction false} InFlatten<V>(cs: seq<seq<Entry<V>>>, e: Entry<V>)
    ensures e in Flatten(cs) <==> exists b | 0 <= b < |cs| :: e in cs[b]
  {
    if cs != [] {
      InFlatten(cs[1..], e);
      if e in Flatten(cs[1..]) {
        var b :| 0 <= b < |cs[1..]| && e in cs[1..][b];
        assert e in cs[b + 1];
      }
      if b :| 0 <= b < |cs| && e in cs[b] {
        assert b > 0 ==> e in cs[1..][b - 1];
      }
    }
  }

  /** Chains without repetition in a sequence of different chains. */
  ghost predicate AllDistinct<V>(s: seq<Entry<V>>) {
    forall i, j | 0 <= i < j < |s| :: s[i] != s[j]
  }

  lemma {:induction false} FlattenDistinct<V>(cs: seq<seq<Entry<V>>>, from: nat, len: nat)
    requires from + |cs| <= len && 0 < len
    requires forall b | 0 <= b < |cs| :: Placed(cs[b], from + b, len)
    ensures AllDistinct(Flatten(cs))
    ensures forall i | 0 <= i < |Flatten(cs)| :: from <= IndexFor(len, Flatten(cs)[i].h)
  {
    if cs != [] {
      assert Placed(cs[0], from + 0, len);
      forall b | 0 <= b < |cs[1..]|
        ensures Placed(cs[1..][b], from + 1 + b, len)
      {
        assert Placed(cs[b + 1], from + (b + 1), len);
      }
      FlattenDistinct(cs[1..], from + 1, len);
      var s, t := cs[0], Flatten(cs[1..]);
      forall i | 0 <= i < |s + t|
        ensures (s + t)[i] == if i < |s| then s[i] else t[i - |s|]
      {
      }
    }
  }

  /** A walk of the whole table passes each entry exactly once. */
  lemma WalkVisitsOnce<V>(t: Table<V>)
    requires t.Valid()
    ensures AllDistinct(Flatten(t.chains))
    ensures forall e | e in Flatten(t.chains) :: e in t.nodes
    ensures forall e | e in t.nodes :: e in Flatten(t.chains)
  {
    var next := Nexts(t.nodes);
    forall b | 0 <= b < |t.chains|
      ensures Placed(t.chains[b], 0 + b, |t.chains|)
    {
      BucketAt(t.table[..], next, t.chains, b);
    }
    FlattenDistinct(t.chains, 0, |t.chains|);
    BucketsShape(t.table[..], next, t.chains);
    forall e | e in Flatten(t.chains)
      ensures e in t.nodes
    {
      InFlatten(t.chains, e);
    }
    forall e | e in t.nodes
      ensures e in Flatten(t.chains)
    {
      InFlatten(t.chains, e);
      assert e in next;
      assert e in t.chains[IndexFor(|t.chains|, e.h)];
    }
  }

  class Cursor<V> {
    const h: Table<V>
    var e: Entry?<V>
    var parent: Entry?<V>
    var index: nat
    ghost var pos: nat

    /** Standing at an entry of the table, or past the last one. */
    ghost predicate Valid()
      reads this, h, h.table, h.nodes
    {
      && h.Valid()
      && (e != null ==> h.FoundAt(e, parent, index, pos) && index < h.table.Length)
    }

    /** The entries still to be visited, beginning with the current one. */
    ghost function Rest(): seq<Entry<V>>
      reads this, h
      requires e != null ==> index < |h.chains| && pos <= |h.chains[index]|
    {
      if e == null then [] else From(h.chains, index, pos)
    }

    /** `arg_hashtable_itr_create`. */
    constructor (h: Table<V>)
      requires h.Valid()
      ensures Valid() && this.h == h && Rest() == Flatten(h.chains)
    {
      hide Buckets, Represents, Nexts, Values, Table.Valid, Flatten, From;
      h.ValidParts();
      this.h := h;
      e, parent, pos := null, null, 0;
      index := h.table.Length;
      new;
      BucketsShape(h.table[..], Nexts(h.nodes), h.chains);
      if h.entrycount == 0 {
        EmptyTable(h);
        return;
      }
      FirstFrom(0);
      assert h.chains[0..] == h.chains;
    }

    /** Find the first entry from bucket j on. */
    method FirstFrom(j0: nat)
      requires h.Valid() && j0 <= h.table.Length
      modifies this
      ensures Valid() && parent == null && Rest() == Flatten(h.chains[j0..])
      ensures e != null ==> pos == 0
      ensures e == null ==> index == h.table.Length
    {
      hide Buckets, Represents, Nexts, Values, Table.Valid, Flatten, From;
      h.ValidParts();
      BucketsShape(h.table[..], Nexts(h.nodes), h.chains);
      parent := null;
      pos := 0;
      var j := j0;
      while j < h.table.Length && h.table[j] == null
        invariant j0 <= j <= h.table.Length
        invariant forall i | j0 <= i < j :: h.chains[i] == []
      {
        j := j + 1;
      }
      SkipEmpty(h.chains, j0, j);
      index := j;
      if j < h.table.Length {
        e := h.table[j];
        FlattenFrom(h.chains, j);
      } else {
        e := null;
        FlattenEnd(h.chains);
      }
    }

    /** The body of `arg_hashtable_itr_advance`, seen from an entry whose successor is at position q of its bucket. */
    method Follow(ghost q: nat) returns (more: bool)
      requires h.Valid() && e != null && index < h.table.Length && index < |h.chains|
      requires q <= |h.chains[index]| && e.next == At(h.chains[index], q)
      modifies this
      ensures more == (e != null)
      ensures var c := h.chains[old(index)];
              if q < |c| then e == c[q] && parent == old(e) && index == old(index) && pos == q
              else Valid() && parent == null && Rest() == From(h.chains, old(index), q)
    {
      hide Buckets, Represents, Nexts, Values, Table.Valid, Flatten;
      h.ValidParts();
      BucketsShape(h.table[..], Nexts(h.nodes), h.chains);
      var next := e.next;
      if next != null {
        parent := e;
        e := next;
        pos := q;
        return true;
      }
      assert h.chains[index][q..] + Flatten(h.chains[index + 1..]) == Flatten(h.chains[index + 1..]);
      FirstFrom(index + 1);
      return e != null;
    }

    /** `arg_hashtable_itr_advance`. */
    method Advance() returns (more: bool)
      requires Valid()
      modifies this
      ensures Valid() && more == (e != null)
      ensures Rest() == if old(e) == null then [] else old(Rest())[1..]
    {
      hide Represents, Flatten, Buckets, Nexts, Values, Table.Valid, From;
      if e == null {
        return false;
      }
      CurrentEntry();
      more := Follow(pos + 1);
    }

    /** The current entry heads what is left, is linked to the next one, and stands at one bucket only. */
    lemma CurrentEntry()
      requires Valid() && e != null
      ensures index < |h.chains| && e in h.nodes
      ensures var c := h.chains[index];
              && pos < |c| && e.next == At(c, pos + 1)
              && Rest() == [e] + From(h.chains, index, pos + 1) && Rest()[1..] == From(h.chains, index, pos + 1)
    {
      hide Represents, Flatten, Buckets, Placed, Linked, From, Table.Valid, Nexts, Values, At, IndexFor;
      h.ValidParts();
      BucketsShape(h.table[..], Nexts(h.nodes), h.chains);
      EntryAt(h.table[..], Nexts(h.nodes), h.chains, index, pos);
      FromStep(h.chains, index, pos);
      SnapshotKeys(h.nodes);
      SnapshotEntry(h.nodes, e);
    }

    /** `arg_hashtable_itr_remove`: take the current entry out of the table and go to the next one. */
    method Remove() returns (more: bool)
      requires Valid() && e != null
      modifies this, h`chains, h`nodes, h`contents, h`entrycount, h.table, h.nodes`next
      ensures Valid() && more == (e != null)
      ensures h.contents == old(h.contents) - {old(e).k} && h.nodes == old(h.nodes) - {old(e)}
      ensures Rest() == old(Rest())[1..]
    {
      hide Represents, Flatten, Buckets, Nexts, Values, Table.Valid;
      CurrentEntry();
      ghost var c, chains, b := h.chains[index], h.chains, index;
      var remember_e, remember_parent := e, parent;
      h.Unhook(e, parent, index, pos);
      RemovedTail(chains, b, pos);
      more := Follow(pos);
      if parent == remember_e {
        parent := remember_parent;
      }
    }
  }

  lemma FromStep<V>(cs: seq<seq<Entry<V>>>, b: nat, p: nat)
    requires b < |cs| && p < |cs[b]|
    ensures From(cs, b, p) == [cs[b][p]] + From(cs, b, p + 1)
    ensures From(cs, b, p)[1..] == From(cs, b, p + 1)
  {
    assert cs[b][p..] == [cs[b][p]] + cs[b][p + 1..];
  }

  lemma RemovedTail<V>(cs: seq<seq<Entry<V>>>, b: nat, p: nat)
    requires b < |cs| && p < |cs[b]|
    ensures var c := cs[b][..p] + cs[b][p + 1..];
            && p <= |c| && At(c, p) == At(cs[b], p + 1)
            && From(cs[b := c], b, p) == From(cs, b, p + 1)
            && c[..p] == cs[b][..p]
  {
    var c := cs[b][..p] + cs[b][p + 1..];
    assert c[p..] == cs[b][p + 1..];
    assert cs[b := c][b + 1..] == cs[b + 1..];
  }

  lemma NoKeysNoEntries<V>(value: map<Entry<V>, V>, m: map<string, V>)
    requires Represents(value, m) && |m| == 0
    ensures value.Keys == {}
  {
    assert m == map[];
  }

  lemma SomeElement<T>(s: seq<T>)
    ensures s != [] ==> exists x :: x in s
  {
    if s != [] {
      assert s[0] in s;
    }
  }

  lemma EmptyTable<V>(t: Table<V>)
    requires t.Valid() && t.entrycount == 0
    ensures Flatten(t.chains) == []
  {
    NoKeysNoEntries(Values(t.nodes), t.contents);
    SnapshotKeys(t.nodes);
    WalkVisitsOnce(t);
    SomeElement(Flatten(t.chains));
  }
}
