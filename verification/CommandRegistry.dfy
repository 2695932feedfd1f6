/** The command registry of argtable3 and the search for the subcommand in argv
    (deps/argtable3/argtable3.c:4891-4952, src/app.c:52-71). */
module CommandRegistry {
  import opened Wrappers
  import opened HashTable
  import opened HashTableIterator

  /** `enhanced_hash` of a hash value, on unsigned 32-bit numbers. */
  function EnhancedHash(k: bv32): bv32 {
    var i := k + !(k << 9);
    var i := i ^ ((i >> 14) | (i << 18));
    var i := i + (i << 4);
    i ^ ((i >> 10) | (i << 22))
  }

  /** `hash_key`, with one byte a character. */
  function HashKey(s: string, hash: bv32 := 5381): bv32 {
    if s == "" then hash else HashKey(s[1..], (hash << 5) + hash + (s[0] as int % 256) as bv32)
  }

  function Hash(s: string): nat {
    EnhancedHash(HashKey(s)) as nat
  }

  datatype CmdInfo = CmdInfo(name: string, description: string, command: nat, ctx: nat)

  /** `arg_cmd_init`. */
  method Init() returns (t: Table<CmdInfo>)
    ensures t.Valid() && t.contents == map[] && fresh(t) && fresh(t.table) && t.nodes == {}
  {
    t := new Table<CmdInfo>(32, Hash);
  }

  /** `arg_cmd_register`: an existing command of that name is replaced. */
  method Register(t: Table<CmdInfo>, name: string, info: CmdInfo)
    requires t.Valid()
    modifies t, t.table, t.nodes
    ensures t.Valid() && t.contents == old(t.contents)[name := info]
    ensures t.table == old(t.table) || fresh(t.table)
    ensures fresh(t.nodes - old(t.nodes))
  {
    hide Buckets, Represents, Nexts, Values, Table.Valid;
    var cmd_info := t.Search(name);
    if cmd_info.Some? {
      t.Remove(name);
    }
    t.Insert(name, info);
    assert t.contents == old(t.contents)[name := info];
  }

  // ---------------------------------------------------------------------------------------------------
  // Runs
  // ---------------------------------------------------------------------------------------------------

  datatype Op = Add(name: string, info: CmdInfo) | Drop(name: string) | Set(name: string, info: CmdInfo)
              | Ask(name: string)

  /** What one operation makes of a finite map: only Set leaves it alone when the name is missing. */
  function Step(m: map<string, CmdInfo>, op: Op): map<string, CmdInfo> {
    match op
    case Add(name, info) => m[name := info]
    case Drop(name) => m - {name}
    case Set(name, info) => if name in m then m[name := info] else m
    case Ask(_) => m
  }

  /** What it answers: a search the value, a change the new one, if the name is there. */
  function Answer(m: map<string, CmdInfo>, op: Op): seq<Option<CmdInfo>> {
    match op
    case Add(_, _) => []
    case Drop(_) => []
    case Set(name, info) => [if name in m then Some(info) else None]
    case Ask(name) => [if name in m then Some(m[name]) else None]
  }

  function After(m: map<string, CmdInfo>, ops: seq<Op>): map<string, CmdInfo>
    decreases |ops|
  {
    if ops == [] then m else After(Step(m, ops[0]), ops[1..])
  }

  function Answers(m: map<string, CmdInfo>, ops: seq<Op>): seq<Option<CmdInfo>>
    decreases |ops|
  {
    if ops == [] then [] else Answer(m, ops[0]) + Answers(Step(m, ops[0]), ops[1..])
  }

  /** One operation on the table. */
  method Perform(t: Table<CmdInfo>, op: Op) returns (answer: seq<Option<CmdInfo>>)
    requires t.Valid()
    modifies t, t.table, t.nodes
    ensures t.Valid() && t.contents == Step(old(t.contents), op) && answer == Answer(old(t.contents), op)
    ensures (t.table == old(t.table) || fresh(t.table)) && fresh(t.nodes - old(t.nodes))
  {
    hide Buckets, Represents, Nexts, Values, Table.Valid;
    answer := [];
    if op.Add? {
      Register(t, op.name, op.info);
    } else if op.Drop? {
      t.Remove(op.name);
    } else if op.Set? {
      var changed := t.Change(op.name, op.info);
      answer := [if changed then Some(op.info) else None];
    } else {
      var r := t.Search(op.name);
      answer := [r];
    }
  }

  /** Any run of registrations, removals, changes and searches behaves like the same run on a finite map. */
  method Run(t: Table<CmdInfo>, ops: seq<Op>) returns (answers: seq<Option<CmdInfo>>)
    requires t.Valid()
    modifies t, t.table, t.nodes
    ensures t.Valid() && t.contents == After(old(t.contents), ops) && answers == Answers(old(t.contents), ops)
    ensures (t.table == old(t.table) || fresh(t.table)) && fresh(t.nodes - old(t.nodes))
    decreases |ops|
  {
    hide Buckets, Represents, Nexts, Values, Table.Valid, Step, Answer;
    if ops == [] {
      return [];
    }
    var answer := Perform(t, ops[0]);
    answers := Run(t, ops[1..]);
    answers := answer + answers;
  }

  // ---------------------------------------------------------------------------------------------------
  // Walks
  // ---------------------------------------------------------------------------------------------------

  /** f shows the key k. */
  ghost predicate Shown<V>(f: seq<Entry<V>>, k: string) {
    exists i :: 0 <= i < |f| && f[i].k == k
  }

  lemma ShownKeyIsThere<V>(f: seq<Entry<V>>, value: map<Entry<V>, V>, m: map<string, V>, i: nat)
    requires Represents(value, m) && i < |f| && f[i] in value
    ensures f[i].k in m
  {
  }

  lemma KeyIsShown<V>(f: seq<Entry<V>>, value: map<Entry<V>, V>, m: map<string, V>, k: string)
    requires Represents(value, m) && k in m && forall e | e in value :: e in f
    ensures Shown(f, k)
  {
    assert k in KeysOf(value.Keys);
    hide Represents;
    var e :| e in value && e.k == k;
    var i :| 0 <= i < |f| && f[i] == e;
    assert f[i].k == k;
  }

  lemma KeysDiffer<V>(f: seq<Entry<V>>, value: map<Entry<V>, V>, m: map<string, V>, i: nat, j: nat)
    requires Represents(value, m) && i < j < |f| && f[i] in value && f[j] in value && f[i] != f[j]
    ensures f[i].k != f[j].k
  {
  }

  /** The walk shows every registered name exactly once. */
  lemma WalkShowsKeys<V>(t: Table<V>)
    requires t.Valid()
    ensures var f := Flatten(t.chains);
            && (forall i | 0 <= i < |f| :: f[i].k in t.contents)
            && (forall k | k in t.contents :: Shown(f, k))
            && (forall i, j | 0 <= i < j < |f| :: f[i].k != f[j].k)
  {
    hide Table.Valid, Flatten, Represents, Values, Shown, Buckets;
    var f, value := Flatten(t.chains), Values(t.nodes);
    WalkVisitsOnce(t);
    t.ValidParts();
    SnapshotKeys(t.nodes);
    forall i | 0 <= i < |f|
      ensures f[i].k in t.contents
    {
      assert f[i] in f;
      ShownKeyIsThere(f, value, t.contents, i);
    }
    forall k | k in t.contents
      ensures Shown(f, k)
    {
      KeyIsShown(f, value, t.contents, k);
    }
    forall i, j | 0 <= i < j < |f|
      ensures f[i].k != f[j].k
    {
      assert f[i] in f && f[j] in f;
      KeysDiffer(f, value, t.contents, i, j);
    }
  }

  /** Position x of argv is one of the keys ks, or it is before i and equal to key. */
  predicate Hit(argv: seq<string>, ks: set<string>, key: string, i: nat, x: nat) {
    1 <= x < |argv| && (argv[x] in ks || (x < i && argv[x] == key))
  }

  /** r is the least such position, or |argv|. */
  ghost predicate LeastHit(argv: seq<string>, ks: set<string>, key: string, i: nat, r: nat) {
    (r == |argv| || Hit(argv, ks, key, i, r)) && forall x: nat | Hit(argv, ks, key, i, x) :: r <= x
  }

  /** The inner loop of the search: take one more name into account. */
  method LowerIndex(argv: seq<string>, subcmd: string, r0: nat, ghost ks: set<string>) returns (r: nat)
    requires LeastHit(argv, ks, "", 0, r0)
    ensures LeastHit(argv, ks + {subcmd}, "", 0, r)
  {
    hide Hit, LeastHit;
    r := r0;
    var i := 1;
    StartHits(argv, ks, subcmd, r);
    while i < |argv|
      invariant 1 <= i && LeastHit(argv, ks, subcmd, i, r)
    {
      StepHits(argv, ks, subcmd, i, r);
      if argv[i] == subcmd {
        if i < r {
          r := i;
        }
      }
      i := i + 1;
    }
    EndHits(argv, ks, subcmd, i, r);
  }

  lemma StartHits(argv: seq<string>, ks: set<string>, key: string, r: nat)
    requires LeastHit(argv, ks, "", 0, r)
    ensures LeastHit(argv, ks, key, 1, r)
  {
    assert forall x: nat :: Hit(argv, ks, key, 1, x) == Hit(argv, ks, "", 0, x);
  }

  lemma StepHits(argv: seq<string>, ks: set<string>, key: string, i: nat, r: nat)
    requires 1 <= i < |argv| && LeastHit(argv, ks, key, i, r)
    ensures LeastHit(argv, ks, key, i + 1, if argv[i] == key && i < r then i else r)
  {
    var r', j := if argv[i] == key && i < r then i else r, i + 1;
    forall x: nat | Hit(argv, ks, key, j, x)
      ensures r' <= x
    {
      assert Hit(argv, ks, key, i, x) || x == i;
      if x == i && argv[x] in ks {
        assert Hit(argv, ks, key, i, x);
      }
    }
    assert r' == |argv| || Hit(argv, ks, key, j, r');
  }

  lemma EndHits(argv: seq<string>, ks: set<string>, key: string, i: nat, r: nat)
    requires |argv| <= i && LeastHit(argv, ks, key, i, r)
    ensures LeastHit(argv, ks + {key}, "", 0, r)
  {
    assert forall x: nat :: Hit(argv, ks + {key}, "", 0, x) == Hit(argv, ks, key, i, x);
  }

  /** `arg_cmd_find_subcmd_index` on a registry that holds some command: the first argument after the program name
      that is a registered name, whatever the order of the table. */
  method FindSubcmdIndex<V>(t: Table<V>, argv: seq<string>) returns (r: int)
    requires t.Valid() && t.contents != map[]
    ensures r == -1 ==> forall i | 1 <= i < |argv| :: argv[i] !in t.contents
    ensures r != -1 ==> 1 <= r < |argv| && argv[r] in t.contents && forall i | 1 <= i < r :: argv[i] !in t.contents
  {
    hide Buckets, Represents, Nexts, Values, Flatten, From, LeastHit, Table.Valid, AllDistinct;
    WalkShowsKeys(t);
    ghost var f, ks: set<string> := Flatten(t.chains), {};
    var itr := new Cursor<V>(t);
    var subcmd_index: nat := |argv|;
    ghost var n := 0;
    NothingHit(argv);
    WalkNonEmpty(t);
    while true
      invariant fresh(itr) && itr.h == t && itr.Valid()
      invariant 0 <= n < |f| && itr.Rest() == f[n..]
      invariant LeastHit(argv, ks, "", 0, subcmd_index)
      invariant (forall j | 0 <= j < n :: f[j].k in ks) && (forall k | k in ks :: k in t.contents)
      decreases |f| - n
    {
      if itr.e != null {
        itr.CurrentEntry();
      }
      var subcmd := itr.e.k;
      assert itr.e == f[n..][0] == f[n];
      subcmd_index := LowerIndex(argv, subcmd, subcmd_index, ks);
      ks := ks + {subcmd};
      n := n + 1;
      var more := itr.Advance();
      assert itr.Rest() == f[n..];
      if !more {
        break;
      }
      itr.CurrentEntry();
    }
    assert forall k | k in t.contents :: k in ks;
    FirstHit(argv, ks, subcmd_index);
    return if subcmd_index == |argv| then -1 else subcmd_index;
  }

  lemma NothingHit(argv: seq<string>)
    ensures LeastHit(argv, {}, "", 0, |argv|)
  {
  }

  lemma FirstHit(argv: seq<string>, ks: set<string>, r: nat)
    requires LeastHit(argv, ks, "", 0, r)
    ensures r == |argv| || (1 <= r < |argv| && argv[r] in ks)
    ensures forall i | 1 <= i < r && i < |argv| :: argv[i] !in ks
  {
    forall i | 1 <= i < r && i < |argv|
      ensures argv[i] !in ks
    {
      assert Hit(argv, ks, "", 0, i) <==> argv[i] in ks;
    }
  }

  lemma WalkNonEmpty<V>(t: Table<V>)
    requires t.Valid() && t.contents != map[]
    ensures Flatten(t.chains) != []
  {
    WalkShowsKeys(t);
    var k :| k in t.contents;
    assert Shown(Flatten(t.chains), k);
  }

  /** A walk that removes the entries whose keys are in drop: every entry is passed once, in table order, and
      exactly the others stay, still correctly linked. */
  method RemoveOnWalk<V>(t: Table<V>, drop: set<string>) returns (visited: seq<string>)
    requires t.Valid() && t.contents != map[]
    modifies t, t.table, t.nodes
    ensures t.Valid() && t.contents == old(t.contents) - drop
    ensures |visited| == |old(Flatten(t.chains))|
    ensures forall i | 0 <= i < |visited| :: visited[i] == old(Flatten(t.chains))[i].k
  {
    hide Buckets, Represents, Nexts, Values, Flatten, From, Table.Valid, AllDistinct, Passed, Shown, At, Linked;
    WalkShowsKeys(t);
    WalkNonEmpty(t);
    ghost var f, m := Flatten(t.chains), t.contents;
    var itr := new Cursor<V>(t);
    visited := [];
    ghost var gone: set<string> := {};
    NonePassed(f, drop);
    while true
      invariant fresh(itr) && itr.h == t && itr.Valid() && t.table == old(t.table) && t.nodes <= old(t.nodes)
      invariant |visited| < |f| && itr.Rest() == f[|visited|..]
      invariant Passed(visited, f, gone, drop) && t.contents == m - gone
      decreases |f| - |visited|
    {
      if itr.e != null {
        itr.CurrentEntry();
      }
      var key := itr.e.k;
      ghost var n := |visited|;
      assert itr.e == f[n..][0] == f[n];
      assert f[n..][1..] == f[n + 1..];
      PassedMore(visited, f, gone, drop);
      visited := visited + [key];
      var more;
      if key in drop {
        DropMore(m, gone, key);
        gone := gone + {key};
        more := itr.Remove();
      } else {
        more := itr.Advance();
      }
      if !more {
        break;
      }
      itr.CurrentEntry();
    }
    AllPassed(visited, m, gone, drop, f);
  }

  /** The keys visited, with those of them that were to be dropped gone. */
  ghost predicate Passed<V>(visited: seq<string>, f: seq<Entry<V>>, gone: set<string>, drop: set<string>) {
    && |visited| <= |f| && gone <= drop
    && forall i | 0 <= i < |visited| :: visited[i] == f[i].k && (f[i].k in drop ==> f[i].k in gone)
  }

  lemma NonePassed<V>(f: seq<Entry<V>>, drop: set<string>)
    ensures Passed([], f, {}, drop)
  {
  }

  lemma PassedMore<V>(visited: seq<string>, f: seq<Entry<V>>, gone: set<string>, drop: set<string>)
    requires Passed(visited, f, gone, drop) && |visited| < |f|
    ensures var k := f[|visited|].k; Passed(visited + [k], f, gone + (if k in drop then {k} else {}), drop)
    ensures gone + {} == gone
  {
  }

  lemma DropMore<V>(m: map<string, V>, gone: set<string>, key: string)
    ensures (m - gone) - {key} == m - (gone + {key})
  {
  }

  lemma AllPassed<V>(visited: seq<string>, m: map<string, V>, gone: set<string>, drop: set<string>, f: seq<Entry<V>>)
    requires Passed(visited, f, gone, drop) && |visited| == |f|
    requires forall k | k in m :: Shown(f, k)
    ensures m - gone == m - drop && forall i | 0 <= i < |visited| :: visited[i] == f[i].k
  {
  }
}
