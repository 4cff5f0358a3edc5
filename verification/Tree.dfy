/** The directory tree simulated over the flat table, and the path-indexed store it stands for. */
module Tree {
  import opened Common
  import opened CertTable
  import opened Paging
  import opened Paths

  /** Something is at the key, or in it as a directory. */
  predicate Exists(table: Table, key: string) {
    key in table || exists k :: k in table && Under(key, k)
  }

  /** The table less the key and everything under it. */
  function Without(table: Table, key: string): Table {
    map k | k in table && k != key && !Under(key, k) :: table[k]
  }

  datatype KeyInfo = KeyInfo(key: string, modified: Option<int>, size: nat, isTerminal: bool)

  function Stat(table: Table, key: string): Option<KeyInfo> {
    if key in table then Some(KeyInfo(key, table[key].modified, |table[key].value|, true))
    else if Exists(table, key) then Some(KeyInfo(key, None, 0, false))
    else None
  }

  /** The immediate child of a directory that holds, or is, the given key under it. */
  function Child(dir: string, key: string): string
    requires Under(dir, key)
  {
    dir + "/" + Split(key[|dir| + 1..])[0]
  }

  /** The immediate children met along the given keys, each the first time it's met. */
  function Children(dir: string, keys: seq<string>): seq<string>
    requires forall k :: k in keys ==> Under(dir, k)
  {
    if keys == [] then []
    else
      var before, c := Children(dir, keys[..|keys| - 1]), Child(dir, keys[|keys| - 1]);
      if c in before then before else before + [c]
  }

  /** In terms of paths, the child is one segment longer than the directory. */
  lemma ChildPath(dir: string, key: string)
    requires Under(dir, key)
    ensures |Split(key)| > |Split(dir)|
    ensures Split(Child(dir, key)) == Split(key)[..|Split(dir)| + 1]
  {
    var rest := key[|dir| + 1..];
    assert key == dir + "/" + rest;
    SplitConcat(dir, rest);
    FirstSegmentIsPrefix(rest);
    var segment := Split(rest)[0];
    SplitConcat(dir, segment);
    SplitSegment(segment);
  }

  /** The children's subtrees don't overlap: a key is at or under exactly one child, the one it counts towards. */
  lemma ChildOwnsSubtree(dir: string, key: string, other: string)
    requires Under(dir, key) && Under(dir, other)
    ensures var c := Child(dir, other);
            key == c || Under(c, key) <==> Child(dir, key) == c
    ensures |dir| < |Child(dir, key)| <= |key|
  {
    var c := Child(dir, other);
    ChildPath(dir, key);
    ChildPath(dir, other);
    UnderIsProperPrefix(dir, key);
    UnderIsProperPrefix(c, key);
    var n := |Split(dir)| + 1;
    if Child(dir, key) == c {
      assert Split(c) == Split(key)[..n];
      if |Split(key)| == n {
        assert Split(key)[..n] == Split(key);
        SplitInjective(key, c);
      }
    } else if key == c || Under(c, key) {
      assert Split(c) <= Split(key) && |Split(c)| == n;
      assert Split(Child(dir, key)) == Split(c);
      SplitInjective(Child(dir, key), c);
    }
    FirstSegmentIsPrefix(key[|dir| + 1..]);
  }

  lemma {:induction false} ChildrenExact(dir: string, keys: seq<string>)
    requires forall k :: k in keys ==> Under(dir, k)
    ensures NoDuplicates(Children(dir, keys))
    ensures forall c :: c in Children(dir, keys) <==> exists k :: k in keys && Child(dir, k) == c
  {
    if keys != [] {
      var init, last := keys[..|keys| - 1], keys[|keys| - 1];
      assert keys == init + [last];
      ChildrenExact(dir, init);
      assert last in keys;
    }
  }

  /** What List returns: every key under the directory, or its immediate children. */
  ghost predicate Lists(table: Table, dir: string, keys: seq<string>) {
    NoDuplicates(keys) && forall k :: k in keys <==> k in table && Under(dir, k)
  }

  /** Every listed child exists, and nothing under the directory is missed. */
  lemma ListedChildrenExist(table: Table, dir: string, keys: seq<string>)
    requires Lists(table, dir, keys)
    ensures forall c :: c in Children(dir, keys) ==> Exists(table, c)
    ensures forall k :: k in table && Under(dir, k) ==>
              exists c :: c in Children(dir, keys) && (k == c || Under(c, k))
  {
    ChildrenExact(dir, keys);
    forall c | c in Children(dir, keys) ensures Exists(table, c) {
      var k :| k in keys && Child(dir, k) == c;
      ChildOwnsSubtree(dir, k, k);
    }
    forall k | k in table && Under(dir, k)
      ensures exists c :: c in Children(dir, keys) && (k == c || Under(c, k))
    {
      ChildOwnsSubtree(dir, k, k);
      assert Child(dir, k) in Children(dir, keys);
    }
  }

  // Walking the tree by repeated listing. `order` is the order keys are scanned in.

  /** A recursive List in the order of an undisturbed scan. */
  function ListAll(table: Table, dir: string, order: seq<string>): (keys: seq<string>)
    ensures forall k :: k in keys ==> k in order && k in table && Under(dir, k)
  {
    FilterSound(order, table, dir + "/");
    Filter(order, table, dir + "/")
  }

  function Longest(order: seq<string>): nat {
    if order == [] then 0 else Max(|order[0]|, Longest(order[1..]))
  }

  lemma {:induction false} LongestBounds(order: seq<string>, k: string)
    requires k in order
    ensures |k| <= Longest(order)
  {
    if k != order[0] {
      assert k in order[1..];
      LongestBounds(order[1..], k);
    }
  }

  /** The children of a directory are longer than it and no longer than the longest key. */
  lemma ChildrenGoDeeper(table: Table, dir: string, order: seq<string>)
    ensures forall c :: c in Children(dir, ListAll(table, dir, order)) ==> |dir| < |c| <= Longest(order)
  {
    var keys := ListAll(table, dir, order);
    ChildrenExact(dir, keys);
    forall c | c in Children(dir, keys) ensures |dir| < |c| <= Longest(order) {
      var k :| k in keys && Child(dir, k) == c;
      ChildOwnsSubtree(dir, k, k);
      LongestBounds(order, k);
    }
  }

  /** The keys met walking down from a directory: each child that's an item, then what's in it as a directory. That
      this is a function at all is that the walk ends. */
  function Walk(table: Table, order: seq<string>, dir: string): seq<string>
    decreases Max(0, Longest(order) - |dir|), 1, 0
  {
    ChildrenGoDeeper(table, dir, order);
    WalkEach(table, order, |dir|, Children(dir, ListAll(table, dir, order)))
  }

  function WalkEach(table: Table, order: seq<string>, depth: nat, children: seq<string>): seq<string>
    requires forall c :: c in children ==> depth < |c| <= Longest(order)
    decreases Max(0, Longest(order) - depth), 0, |children|
  {
    if children == [] then []
    else
      var c := children[0];
      (if c in table then [c] else []) + Walk(table, order, c) + WalkEach(table, order, depth, children[1..])
  }

  predicate AtOrUnder(c: string, k: string) {
    k == c || Under(c, k)
  }

  ghost predicate AtOrUnderOne(children: seq<string>, k: string) {
    exists c :: c in children && AtOrUnder(c, k)
  }

  ghost predicate IsChild(dir: string, c: string) {
    exists o :: Under(dir, o) && c == Child(dir, o)
  }

  lemma ChildrenApart(dir: string, c: string, r: string, k: string)
    requires IsChild(dir, c) && IsChild(dir, r) && AtOrUnder(c, k) && AtOrUnder(r, k)
    ensures Under(dir, k) && c == r
  {
    var o :| Under(dir, o) && c == Child(dir, o);
    var o' :| Under(dir, o') && r == Child(dir, o');
    assert dir + "/" <= c <= k;
    ChildOwnsSubtree(dir, k, o);
    ChildOwnsSubtree(dir, k, o');
  }

  lemma AtOrUnderSplit(children: seq<string>, k: string)
    requires children != []
    ensures AtOrUnderOne(children, k) <==> AtOrUnder(children[0], k) || AtOrUnderOne(children[1..], k)
  {
    assert children == [children[0]] + children[1..];
    if AtOrUnderOne(children[1..], k) {
      var r :| r in children[1..] && AtOrUnder(r, k);
      assert r in children;
    }
  }

  /** The children of a directory cover what's under it. */
  lemma ChildrenCover(table: Table, dir: string, order: seq<string>)
    requires NoDuplicates(order) && forall k :: k in table ==> k in order
    ensures var children := Children(dir, ListAll(table, dir, order));
            && NoDuplicates(children)
            && (forall c :: c in children ==> IsChild(dir, c) && |dir| < |c| <= Longest(order))
            && forall k :: k in table ==> (AtOrUnderOne(children, k) <==> Under(dir, k))
  {
    var keys := ListAll(table, dir, order);
    var children := Children(dir, keys);
    ChildrenGoDeeper(table, dir, order);
    FilterExact(order, table, dir + "/");
    ChildrenExact(dir, keys);
    ListedChildrenExist(table, dir, keys);
    forall c | c in children ensures IsChild(dir, c) {
      var o :| o in keys && Child(dir, o) == c;
    }
    forall k | k in table ensures AtOrUnderOne(children, k) <==> Under(dir, k) {
      if AtOrUnderOne(children, k) {
        var c :| c in children && AtOrUnder(c, k);
        ChildrenApart(dir, c, c, k);
      } else if Under(dir, k) {
        var c :| c in children && (k == c || Under(c, k));
        assert AtOrUnder(c, k);
      }
    }
  }

  /** The walk visits every key under the directory, each exactly once. */
  lemma {:induction false} WalkVisitsEachOnce(table: Table, order: seq<string>, dir: string)
    requires NoDuplicates(order) && forall k :: k in table ==> k in order
    ensures Lists(table, dir, Walk(table, order, dir))
    decreases Max(0, Longest(order) - |dir|), 1, 0
  {
    ChildrenCover(table, dir, order);
    WalkEachVisitsOnce(table, order, dir, Children(dir, ListAll(table, dir, order)));
  }

  lemma {:induction false} WalkEachVisitsOnce(table: Table, order: seq<string>, dir: string, children: seq<string>)
    requires NoDuplicates(order) && forall k :: k in table ==> k in order
    requires NoDuplicates(children)
    requires forall c :: c in children ==> IsChild(dir, c) && |dir| < |c| <= Longest(order)
    ensures NoDuplicates(WalkEach(table, order, |dir|, children))
    ensures forall k :: k in WalkEach(table, order, |dir|, children) <==> k in table && AtOrUnderOne(children, k)
    decreases Max(0, Longest(order) - |dir|), 0, |children|
  {
    if children != [] {
      var c, rest := children[0], children[1..];
      assert c in children && forall r :: r in rest ==> r in children && r != c;
      WalkVisitsEachOnce(table, order, c);
      WalkEachVisitsOnce(table, order, dir, rest);
      var self := if c in table then [c] else [];
      var inside, others := Walk(table, order, c), WalkEach(table, order, |dir|, rest);
      NoDuplicatesConcat(self, inside);
      forall k | k in self + inside ensures k !in others {
        if k in others {
          var r :| r in rest && AtOrUnder(r, k);
          ChildrenApart(dir, c, r, k);
        }
      }
      NoDuplicatesConcat(self + inside, others);
      forall k ensures k in self + inside + others <==> k in table && AtOrUnderOne(children, k) {
        AtOrUnderSplit(children, k);
      }
    }
  }

  // The path-indexed store.

  type PathStore = map<Path, Item>

  /** What the flat table stands for. */
  ghost function Abs(table: Table): PathStore {
    map p | p in (set k | k in table :: Split(k)) :: table[KeyAt(table, p)]
  }

  ghost function KeyAt(table: Table, p: Path): (k: string)
    requires exists k :: k in table && Split(k) == p
    ensures k in table && Split(k) == p
  {
    var k :| k in table && Split(k) == p;
    k
  }

  lemma AbsAt(table: Table, key: string)
    ensures key in table <==> Split(key) in Abs(table)
    ensures key in table ==> Abs(table)[Split(key)] == table[key]
  {
    if Split(key) in Abs(table) {
      SplitInjective(key, KeyAt(table, Split(key)));
    }
  }

  /** Operations on the table: a put of any item, the removal of one key, and Delete. */
  datatype Op = Put(key: string, item: Item) | Remove(key: string) | Delete(key: string)

  function ApplyFlat(table: Table, op: Op): Table {
    match op
    case Put(key, item) => table[key := item]
    case Remove(key) => table - {key}
    case Delete(key) => Without(table, key)
  }

  ghost function ApplyPath(store: PathStore, op: Op): PathStore {
    match op
    case Put(key, item) => store[Split(key) := item]
    case Remove(key) => store - {Split(key)}
    case Delete(key) => map p | p in store && !(Split(key) <= p) :: store[p]
  }

  lemma OpRefines(table: Table, op: Op)
    ensures Abs(ApplyFlat(table, op)) == ApplyPath(Abs(table), op)
  {
    var flat, store := ApplyFlat(table, op), ApplyPath(Abs(table), op);
    forall p | p in Abs(flat) || p in store
      ensures p in Abs(flat) && p in store && Abs(flat)[p] == store[p]
    {
      var k: string;
      if p in Abs(flat) {
        k := KeyAt(flat, p);
      } else if p in Abs(table) {
        k := KeyAt(table, p);
      } else {
        k := op.key;
      }
      assert Split(k) == p;
      AbsAt(table, k);
      AbsAt(flat, k);
      UnderIsProperPrefix(op.key, k);
      if Split(k) == Split(op.key) {
        SplitInjective(k, op.key);
      }
    }
    assert Abs(flat).Keys == store.Keys;
  }

  function RunFlat(table: Table, ops: seq<Op>): Table
    decreases |ops|
  {
    if ops == [] then table else RunFlat(ApplyFlat(table, ops[0]), ops[1..])
  }

  ghost function RunPath(store: PathStore, ops: seq<Op>): PathStore
    decreases |ops|
  {
    if ops == [] then store else RunPath(ApplyPath(store, ops[0]), ops[1..])
  }

  /** After any sequence of operations the flat table stands for what the same operations make of a store of paths. */
  lemma {:induction false} FlatTableRefinesPaths(table: Table, ops: seq<Op>)
    ensures Abs(RunFlat(table, ops)) == RunPath(Abs(table), ops)
    decreases |ops|
  {
    if ops != [] {
      OpRefines(table, ops[0]);
      FlatTableRefinesPaths(ApplyFlat(table, ops[0]), ops[1..]);
    }
  }

  /** Queries of the table are queries of the paths. */
  lemma QueriesRefine(table: Table, key: string)
    ensures Exists(table, key) <==> exists p :: p in Abs(table) && Split(key) <= p
    ensures Exists(table, key) <==> Stat(table, key).Some?
    ensures Stat(table, key).Some? && Stat(table, key).value.isTerminal <==> Split(key) in Abs(table)
    ensures Split(key) in Abs(table) ==>
              Stat(table, key)
                == Some(KeyInfo(key, Abs(table)[Split(key)].modified, |Abs(table)[Split(key)].value|, true))
  {
    AbsAt(table, key);
    if Exists(table, key) && key !in table {
      var k :| k in table && Under(key, k);
      AbsAt(table, k);
      UnderIsProperPrefix(key, k);
      assert Split(k) in Abs(table) && Split(key) <= Split(k);
    }
    if exists p :: p in Abs(table) && Split(key) <= p {
      var p :| p in Abs(table) && Split(key) <= p;
      var k := KeyAt(table, p);
      UnderIsProperPrefix(key, k);
      if p == Split(key) {
        SplitInjective(k, key);
      }
    }
  }

  /** The children listed are, as paths, one segment longer than the directory and lead somewhere. */
  lemma ChildrenRefine(table: Table, dir: string, keys: seq<string>, c: Path)
    requires Lists(table, dir, keys) && c != []
    ensures Join(c) in Children(dir, keys) && Split(Join(c)) == c <==>
            |c| == |Split(dir)| + 1 && Split(dir) <= c && exists p :: p in Abs(table) && c <= p
  {
    ChildrenExact(dir, keys);
    if Join(c) in Children(dir, keys) && Split(Join(c)) == c {
      var k :| k in keys && Child(dir, k) == Join(c);
      ChildPath(dir, k);
      AbsAt(table, k);
      UnderIsProperPrefix(dir, k);
      assert c <= Split(k);
    }
    if |c| == |Split(dir)| + 1 && Split(dir) <= c && exists p :: p in Abs(table) && c <= p {
      var p :| p in Abs(table) && c <= p;
      var k := KeyAt(table, p);
      UnderIsProperPrefix(dir, k);
      ChildPath(dir, k);
      assert Split(Child(dir, k)) == c;
      JoinSplit(Child(dir, k));
    }
  }

  // Locks share the table with the data.

  predicate IsLockPath(key: string) {
    Split(key)[0] == "locks"
  }

  lemma LockKeysAreLockPaths(name: string)
    ensures IsLockPath(LockKey(name))
    ensures forall key :: Under(key, LockKey(name)) ==> IsLockPath(key)
  {
    assert LockKey(name) == "locks" + "/" + name;
    SplitConcat("locks", name);
    SplitSegment("locks");
    forall key | Under(key, LockKey(name)) ensures IsLockPath(key) {
      UnderIsProperPrefix(key, LockKey(name));
    }
  }

  /** No operation on data outside locks/ changes a lock, and none on a lock changes what any query outside says. */
  lemma LocksAndDataApart(table: Table, name: string, op: Op, key: string)
    ensures !IsLockPath(op.key) ==>
              var table' := ApplyFlat(table, op);
              (LockKey(name) in table <==> LockKey(name) in table')
              && (LockKey(name) in table ==> table'[LockKey(name)] == table[LockKey(name)])
    ensures op.key == LockKey(name) && !op.Delete? && !IsLockPath(key) ==>
              var table' := ApplyFlat(table, op);
              Exists(table', key) == Exists(table, key) && Stat(table', key) == Stat(table, key)
  {
    LockKeysAreLockPaths(name);
    if op.key == LockKey(name) && !op.Delete? && !IsLockPath(key) {
      var table' := ApplyFlat(table, op);
      assert forall k :: k != LockKey(name) ==> (k in table <==> k in table');
      if exists k :: k in table && Under(key, k) {
        var k :| k in table && Under(key, k);
        assert k in table';
      }
      if exists k :: k in table' && Under(key, k) {
        var k :| k in table' && Under(key, k);
        assert k in table;
      }
    }
  }
}
