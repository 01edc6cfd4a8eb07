/**
 * What the insertion, rehash and lookup of hash_table/hash.c guarantee, stated
 * on the functions of TableSpec: the three outcomes of an insertion, when a
 * rehash happens, what a later lookup sees, and what a rehash preserves.
 */
module TableProperties {
  import opened Wrappers
  import opened KeyHash
  import opened TableSpec

  // ---------------------------------------------------------------------
  // The three outcomes of one insertion.

  /** An empty slot receives a one-node chain; nothing else changes and no rehash follows. */
  lemma SetEmptySlot(b: Buckets, key: Key, value: int, canRehash: bool)
    requires |b| >= 1 && b[Slot(key, |b|)] == []
    ensures SetTable(b, key, value, canRehash) == b[Slot(key, |b|) := [Item(key, value)]]
    ensures Size(SetTable(b, key, value, canRehash)) == Size(b) + 1
  {
    SizeUpdate(b, Slot(key, |b|), [Item(key, value)]);
  }

  /** A compared node with the key has its value overwritten in place; no node is added and no rehash follows. */
  lemma SetOverwrites(b: Buckets, key: Key, value: int, canRehash: bool, j: nat)
    requires |b| >= 1 && ComparedMatch(b[Slot(key, |b|)], key) == Some(j)
    ensures j + 1 < |b[Slot(key, |b|)]|
    ensures SetTable(b, key, value, canRehash)
         == b[Slot(key, |b|) := b[Slot(key, |b|)][j := Item(key, value)]]
    ensures Size(SetTable(b, key, value, canRehash)) == Size(b)
  {
    var i := Slot(key, |b|);
    SizeUpdate(b, i, b[i][j := Item(key, value)]);
  }

  /** Otherwise the new node goes after the tail, and the node count grows by one. */
  lemma SetAppends(b: Buckets, key: Key, value: int)
    requires |b| >= 1
    requires b[Slot(key, |b|)] != [] && ComparedMatch(b[Slot(key, |b|)], key).None?
    ensures Insert(b, key, value) == b[Slot(key, |b|) := b[Slot(key, |b|)] + [Item(key, value)]]
    ensures Size(Insert(b, key, value)) == Size(b) + 1
  {
    var i := Slot(key, |b|);
    SizeUpdate(b, i, b[i] + [Item(key, value)]);
  }

  /**
   * The capacity changes exactly when growth is allowed, the slot was not
   * empty, no compared node matched, and the walk made at least MAX_CHAIN + 1
   * iterations, i.e. the old chain had at least MAX_CHAIN + 2 nodes.
   */
  lemma RehashTrigger(b: Buckets, key: Key, value: int, canRehash: bool)
    requires |b| >= 1
    ensures var c := b[Slot(key, |b|)];
      |SetTable(b, key, value, canRehash)| != |b|
      <==> canRehash && c != [] && (forall j :: 0 <= j < |c| - 1 ==> c[j].key != key) && |c| >= MAX_CHAIN + 2
    ensures |SetTable(b, key, value, canRehash)| == |b| || |SetTable(b, key, value, canRehash)| == 2 * |b|
  {
  }

  // ---------------------------------------------------------------------
  // What a lookup sees after an insertion.

  /**
   * The key is on the tail node (a lone head included), which the insertion
   * walk never compares, and on no compared node.
   */
  predicate TailOnly(c: Chain, key: Key)
  {
    c != [] && ComparedMatch(c, key).None? && c[|c| - 1].key == key
  }

  /** Looking up in a chain with one node added at its end. */
  lemma ChainLookupSnoc(c: Chain, x: Item, key: Key)
    ensures ChainLookup(c + [x], key)
         == if ChainLookup(c, key).Some? then ChainLookup(c, key)
            else if x.key == key then Some(x.value) else None
  {
    var d := c + [x];
    match FirstMatch(c, key)
    case Some(p) =>
      FirstMatchAt(d, key, p);
    case None =>
      if x.key == key {
        FirstMatchAt(d, key, |c|);
      } else {
        assert forall j :: 0 <= j < |d| ==> d[j].key != key by {
          forall j | 0 <= j < |d| ensures d[j].key != key {
            if j < |c| { assert d[j] == c[j]; }
          }
        }
      }
  }

  /** Looking up in a chain one of whose nodes, holding `key`, got a new value. */
  lemma ChainLookupOverwrite(c: Chain, j: nat, key: Key, value: int, k2: Key)
    requires j < |c| && c[j].key == key
    requires forall q :: 0 <= q < j ==> c[q].key != key
    ensures ChainLookup(c[j := Item(key, value)], k2)
         == if k2 == key then Some(value) else ChainLookup(c, k2)
  {
    var d := c[j := Item(key, value)];
    if k2 == key {
      FirstMatchAt(d, key, j);
    } else {
      match FirstMatch(c, k2)
      case Some(p) =>
        FirstMatchAt(d, k2, p);
      case None =>
        assert forall q :: 0 <= q < |d| ==> d[q].key != k2 by {
          forall q | 0 <= q < |d| ensures d[q].key != k2 {
            if q != j { assert d[q] == c[q]; }
          }
        }
    }
  }

  /** One chain: the lookup of another key is unchanged; the lookup of the key sees the new value unless only the tail held it. */
  lemma ChainLookupInsert(c: Chain, key: Key, value: int, k2: Key)
    ensures ChainLookup(InsertChain(c, key, value), k2)
         == if k2 != key then ChainLookup(c, k2)
            else if TailOnly(c, key) then ChainLookup(c, key)
            else Some(value)
  {
    if c == [] {
    } else {
      match ComparedMatch(c, key)
      case Some(j) =>
        assert c[j].(value := value) == Item(key, value);
        ChainLookupOverwrite(c, j, key, value, k2);
      case None =>
        ChainLookupSnoc(c, Item(key, value), k2);
        if k2 == key {
          if TailOnly(c, key) {
            FirstMatchAt(c, key, |c| - 1);
          } else {
            assert forall j :: 0 <= j < |c| ==> c[j].key != key;
          }
        }
    }
  }

  /** The whole table: `hash_get` after an insertion without growth. */
  lemma LookupAfterInsert(b: Buckets, key: Key, value: int, k2: Key)
    requires |b| >= 1
    ensures Lookup(Insert(b, key, value), k2)
         == if k2 != key then Lookup(b, k2)
            else if TailOnly(b[Slot(key, |b|)], key) then Lookup(b, key)
            else Some(value)
  {
    var i := Slot(key, |b|);
    if Slot(k2, |b|) == i {
      ChainLookupInsert(b[i], key, value, k2);
    }
  }

  /** In a chain without duplicates, the insertion keeps it so exactly when the key is not on the tail alone. */
  lemma ChainKeepsDistinct(c: Chain, key: Key, value: int)
    requires Distinct(c)
    ensures Distinct(InsertChain(c, key, value)) <==> !TailOnly(c, key)
  {
    if c != [] {
      match ComparedMatch(c, key)
      case Some(j) =>
        var d := InsertChain(c, key, value);
        assert forall q :: 0 <= q < |d| ==> d[q].key == c[q].key;
      case None =>
        var d := c + [Item(key, value)];
        if TailOnly(c, key) {
          assert d[|c| - 1].key == d[|c|].key;
        } else {
          assert forall q :: 0 <= q < |c| ==> d[q].key != key;
        }
    }
  }

  /** The table: an insertion keeps every chain free of duplicates exactly when the key is not on its slot's tail alone. */
  lemma InsertKeepsUnique(b: Buckets, key: Key, value: int)
    requires |b| >= 1 && UniqueKeys(b)
    ensures UniqueKeys(Insert(b, key, value)) <==> !TailOnly(b[Slot(key, |b|)], key)
  {
    var i := Slot(key, |b|);
    ChainKeepsDistinct(b[i], key, value);
    var r := Insert(b, key, value);
    if !TailOnly(b[i], key) {
      forall s | 0 <= s < |r| ensures Distinct(r[s]) {
        if s != i { assert r[s] == b[s]; }
      }
    } else {
      assert !Distinct(r[i]);
    }
  }

  /**
   * The blind spot: re-setting a key that only the tail holds appends a
   * second node for it, so `hash_get` keeps returning the old value.
   */
  lemma TailDuplicate(b: Buckets, key: Key, value: int)
    requires |b| >= 1 && TailOnly(b[Slot(key, |b|)], key)
    ensures Size(Insert(b, key, value)) == Size(b) + 1
    ensures Lookup(Insert(b, key, value), key) == Lookup(b, key)
    ensures Lookup(b, key).Some?
    ensures UniqueKeys(b) ==> !UniqueKeys(Insert(b, key, value))
  {
    SetAppends(b, key, value);
    LookupAfterInsert(b, key, value, key);
    var c := b[Slot(key, |b|)];
    assert c[|c| - 1].key == key;
    if UniqueKeys(b) {
      InsertKeepsUnique(b, key, value);
    }
  }

  /** A concrete instance of the blind spot: a one-slot table whose only node maps "a" (byte 97) to 1, then `hash_set(h, "a", 2)`. */
  lemma LoneHeadResetExample()
    ensures SetTable([[Item([97], 1)]], [97], 2, true) == [[Item([97], 1), Item([97], 2)]]
    ensures GetOutcome(SetTable([[Item([97], 1)]], [97], 2, true), [97]) == Success(1)
  {
    var b: Buckets := [[Item([97], 1)]];
    assert Slot([97], 1) == 0;
    assert ComparedMatch(b[0], [97]).None?;
    SetAppends(b, [97], 2);
    var r: Buckets := [[Item([97], 1), Item([97], 2)]];
    assert b[0] + [Item([97], 2)] == r[0];
    assert b[0 := r[0]] == r;
    FirstMatchAt(r[0], [97], 0);
  }

  // ---------------------------------------------------------------------
  // What a rehash preserves.

  /** Every node reachable from some slot. */
  ghost function Nodes(b: Buckets): set<Item>
  {
    NodesBelow(b, |b|)
  }

  /** Every node reachable from the first `n` slots. */
  ghost function NodesBelow(b: Buckets, n: nat): set<Item>
    requires n <= |b|
  {
    set s, j | 0 <= s < n && 0 <= j < |b[s]| :: b[s][j]
  }

  /** The first `n` nodes of a chain. */
  ghost function Items(c: Chain, n: nat): set<Item>
    requires n <= |c|
  {
    set m | 0 <= m < n :: c[m]
  }

  /** No node of the chain of `key`'s slot holds `key`. */
  predicate Absent(b: Buckets, key: Key)
    requires |b| >= 1
  {
    FirstMatch(b[Slot(key, |b|)], key).None?
  }

  // For a duplicate-free table the node set alone decides every lookup. The
  // rehash proofs below do not rely on this: with neighbouring duplicates the
  // node set does not say which copy comes first.

  /** In a well-placed table without duplicates, a lookup finds a value exactly when a node holds it with the key. */
  lemma LookupByNodes(b: Buckets, key: Key, v: int)
    requires |b| >= 1 && WellPlaced(b) && UniqueKeys(b)
    ensures Lookup(b, key) == Some(v) <==> Item(key, v) in Nodes(b)
  {
    var i := Slot(key, |b|);
    if Lookup(b, key) == Some(v) {
      var p := FirstMatch(b[i], key).value;
      assert b[i][p] == Item(key, v);
    }
    if Item(key, v) in Nodes(b) {
      var s, j :| 0 <= s < |b| && 0 <= j < |b[s]| && b[s][j] == Item(key, v);
      assert s == i;
      var p := FirstMatch(b[i], key).value;
      assert !(p < j) && !(j < p);
    }
  }

  /** Two such tables with the same nodes answer every lookup alike. */
  lemma NodesDetermineLookup(b1: Buckets, b2: Buckets, key: Key)
    requires |b1| >= 1 && WellPlaced(b1) && UniqueKeys(b1)
    requires |b2| >= 1 && WellPlaced(b2) && UniqueKeys(b2)
    requires Nodes(b1) == Nodes(b2)
    ensures Lookup(b1, key) == Lookup(b2, key)
  {
    if Lookup(b1, key).Some? {
      LookupByNodes(b1, key, Lookup(b1, key).value);
      LookupByNodes(b2, key, Lookup(b1, key).value);
    } else if Lookup(b2, key).Some? {
      LookupByNodes(b1, key, Lookup(b2, key).value);
      LookupByNodes(b2, key, Lookup(b2, key).value);
    }
  }

  /** Appending a node to one chain adds exactly that node. */
  lemma NodesAppend(b: Buckets, i: nat, x: Item)
    requires i < |b|
    ensures Nodes(b[i := b[i] + [x]]) == Nodes(b) + {x}
  {
    var r := b[i := b[i] + [x]];
    forall y | y in Nodes(r) ensures y in Nodes(b) + {x} {
      var s, j :| 0 <= s < |r| && 0 <= j < |r[s]| && r[s][j] == y;
      if s != i {
        assert b[s][j] == y;
      } else if j < |b[i]| {
        assert b[i][j] == y;
      }
    }
    forall y | y in Nodes(b) + {x} ensures y in Nodes(r) {
      if y == x {
        assert r[i][|b[i]|] == x;
      } else {
        var s, j :| 0 <= s < |b| && 0 <= j < |b[s]| && b[s][j] == y;
        assert r[s][j] == y;
      }
    }
  }

  // A reference for the rehash: when duplicates sit only on neighbouring
  // nodes, every reinsertion appends (the second copy meets the first as the
  // tail), so the rehash is the plain distribution of the old nodes, in
  // order, onto the ends of their new chains.

  /** `x` appended to the chain of the slot its key hashes to. */
  function AppendNode(b: Buckets, x: Item): (r: Buckets)
    requires |b| >= 1
    ensures |r| == |b|
  {
    b[Slot(x.key, |b|) := b[Slot(x.key, |b|)] + [x]]
  }

  /** The first `n` of `items`, appended one after another. */
  function AppendFirst(b: Buckets, items: Chain, n: nat): (r: Buckets)
    requires |b| >= 1 && n <= |items|
    ensures |r| == |b|
    decreases n
  {
    if n == 0 then b else AppendNode(AppendFirst(b, items, n - 1), items[n - 1])
  }

  /** The whole chains of the first `i` slots of `source`, appended slot by slot. */
  function AppendChains(b: Buckets, source: Buckets, i: nat): (r: Buckets)
    requires |b| >= 1 && i <= |source|
    ensures |r| == |b|
    decreases i
  {
    if i == 0 then b else AppendFirst(AppendChains(b, source, i - 1), source[i - 1], |source[i - 1]|)
  }

  /** Appending a node adds exactly it. */
  lemma AppendNodeNodes(b: Buckets, x: Item)
    requires |b| >= 1
    ensures Nodes(AppendNode(b, x)) == Nodes(b) + {x}
  {
    NodesAppend(b, Slot(x.key, |b|), x);
  }

  /** Appending a node whose key is new keeps the chains free of duplicates. */
  lemma AppendNodeUnique(b: Buckets, x: Item)
    requires |b| >= 1 && UniqueKeys(b) && Absent(b, x.key)
    ensures UniqueKeys(AppendNode(b, x))
  {
    var i := Slot(x.key, |b|);
    var r := AppendNode(b, x);
    forall s | 0 <= s < |r| ensures Distinct(r[s]) {
      if s != i {
        assert r[s] == b[s];
      }
    }
  }

  /** Inserting a key that no compared node of its slot holds is appending its node. */
  lemma FreshInsert(b: Buckets, x: Item)
    requires |b| >= 1 && Appends(b[Slot(x.key, |b|)], x.key)
    ensures Insert(b, x.key, x.value) == AppendNode(b, x)
  {
    var c := b[Slot(x.key, |b|)];
    if c == [] {
      assert c + [x] == [x];
    }
  }

  lemma ItemsStep(c: Chain, n: nat)
    requires 1 <= n <= |c|
    ensures Items(c, n) == Items(c, n - 1) + {c[n - 1]}
  {
  }

  /** Appending the first `n` items adds exactly them. */
  lemma {:induction false} AppendFirstNodes(t: Buckets, c: Chain, n: nat)
    requires |t| >= 1 && n <= |c|
    ensures Nodes(AppendFirst(t, c, n)) == Nodes(t) + Items(c, n)
    decreases n
  {
    if n == 0 {
      assert Items(c, 0) == {};
    } else {
      AppendFirstNodes(t, c, n - 1);
      AppendNodeNodes(AppendFirst(t, c, n - 1), c[n - 1]);
      ItemsStep(c, n);
    }
  }

  /** Appending the first `n` items adds `n` nodes. */
  lemma {:induction false} AppendFirstSize(t: Buckets, c: Chain, n: nat)
    requires |t| >= 1 && n <= |c|
    ensures Size(AppendFirst(t, c, n)) == Size(t) + n
    decreases n
  {
    if n > 0 {
      AppendFirstSize(t, c, n - 1);
      var pre := AppendFirst(t, c, n - 1);
      SizeUpdate(pre, Slot(c[n - 1].key, |pre|), pre[Slot(c[n - 1].key, |pre|)] + [c[n - 1]]);
    }
  }

  /** Appending a node with another key keeps `k` absent. */
  lemma AppendNodeAbsent(b: Buckets, x: Item, k: Key)
    requires |b| >= 1 && Absent(b, k) && x.key != k
    ensures Absent(AppendNode(b, x), k)
  {
    var c := b[Slot(k, |b|)];
    if Slot(x.key, |b|) == Slot(k, |b|) {
      forall j | 0 <= j < |c| + 1 ensures (c + [x])[j].key != k {
        if j < |c| { assert (c + [x])[j] == c[j]; }
      }
    }
  }

  /** A key that the target does not hold and that none of the first `n` items has stays absent while they are appended. */
  lemma {:induction false} AppendFirstAbsent(t: Buckets, c: Chain, n: nat, k: Key)
    requires |t| >= 1 && n <= |c| && Absent(t, k)
    requires forall m :: 0 <= m < n ==> c[m].key != k
    ensures Absent(AppendFirst(t, c, n), k)
    decreases n
  {
    if n > 0 {
      AppendFirstAbsent(t, c, n - 1, k);
      AppendNodeAbsent(AppendFirst(t, c, n - 1), c[n - 1], k);
    }
  }

  /** The chains stay free of duplicates while such a chain is appended. */
  lemma {:induction false} AppendFirstUnique(t: Buckets, c: Chain, n: nat)
    requires |t| >= 1 && n <= |c| && Distinct(c) && UniqueKeys(t)
    requires forall m {:trigger Absent(t, c[m].key)} :: 0 <= m < |c| ==> Absent(t, c[m].key)
    ensures UniqueKeys(AppendFirst(t, c, n))
    decreases n
  {
    if n > 0 {
      var pre := AppendFirst(t, c, n - 1);
      AppendFirstUnique(t, c, n - 1);
      AppendFirstAbsent(t, c, n - 1, c[n - 1].key);
      AppendNodeUnique(pre, c[n - 1]);
    }
  }

  /** Appending a node whose key its slot lacks leaves that key on its chain's tail only. */
  lemma AppendAfterAbsent(b: Buckets, x: Item)
    requires |b| >= 1 && Absent(b, x.key)
    ensures Appends(AppendNode(b, x)[Slot(x.key, |b|)], x.key)
  {
    var c := b[Slot(x.key, |b|)];
    assert AppendNode(b, x)[Slot(x.key, |b|)] == c + [x];
    assert forall j :: 0 <= j < |c| ==> (c + [x])[j] == c[j];
  }

  /**
   * While a chain whose duplicates are neighbours is appended to a table that
   * lacks its keys, the next node's key is at most on the tail of its chain:
   * the only earlier node with that key is the one appended just before.
   */
  lemma AppendReady(t: Buckets, c: Chain, n: nat)
    requires |t| >= 1 && 1 <= n <= |c| && AdjacentDuplicates(c)
    requires forall m {:trigger Absent(t, c[m].key)} :: 0 <= m < |c| ==> Absent(t, c[m].key)
    ensures Appends(AppendFirst(t, c, n - 1)[Slot(c[n - 1].key, |t|)], c[n - 1].key)
  {
    var k := c[n - 1].key;
    assert Absent(t, c[n - 1].key);
    if n >= 2 && c[n - 2].key == k {
      AppendFirstAbsent(t, c, n - 2, k);
      AppendAfterAbsent(AppendFirst(t, c, n - 2), c[n - 2]);
    } else {
      AppendFirstAbsent(t, c, n - 1, k);
    }
  }

  /** The step of `InsertFirstAppends`: once both runs agree before item `n - 1`, they agree after it. */
  lemma InsertFirstAppendsStep(t: Buckets, c: Chain, n: nat)
    requires |t| >= 1 && 1 <= n <= |c| && AdjacentDuplicates(c)
    requires forall m {:trigger Absent(t, c[m].key)} :: 0 <= m < |c| ==> Absent(t, c[m].key)
    ensures SameRun(t, c, n - 1) ==> SameRun(t, c, n)
  {
    AppendReady(t, c, n);
    FreshInsert(AppendFirst(t, c, n - 1), c[n - 1]);
  }

  /** Reinserting such a chain, node by node, is appending it. */
  lemma InsertFirstAppends(t: Buckets, c: Chain, n: nat)
    requires |t| >= 1 && n <= |c| && AdjacentDuplicates(c)
    requires forall m {:trigger Absent(t, c[m].key)} :: 0 <= m < |c| ==> Absent(t, c[m].key)
    ensures InsertFirst(t, c, n) == AppendFirst(t, c, n)
  {
    SameRunHolds(t, c, n);
  }

  /** The two runs over the first `n` items give the same table. */
  predicate SameRun(t: Buckets, c: Chain, n: nat)
    requires |t| >= 1 && n <= |c|
  {
    InsertFirst(t, c, n) == AppendFirst(t, c, n)
  }

  lemma {:induction false} SameRunHolds(t: Buckets, c: Chain, n: nat)
    requires |t| >= 1 && n <= |c| && AdjacentDuplicates(c)
    requires forall m {:trigger Absent(t, c[m].key)} :: 0 <= m < |c| ==> Absent(t, c[m].key)
    ensures SameRun(t, c, n)
    decreases n
  {
    if n > 0 {
      SameRunHolds(t, c, n - 1);
      InsertFirstAppendsStep(t, c, n);
    }
  }

  /** The nodes of the first `i + 1` chains are those of the first `i` and of chain `i`. */
  lemma NodesBelowStep(b: Buckets, i: nat)
    requires i < |b|
    ensures NodesBelow(b, i + 1) == NodesBelow(b, i) + Items(b[i], |b[i]|)
  {
    forall y | y in NodesBelow(b, i + 1) ensures y in NodesBelow(b, i) + Items(b[i], |b[i]|) {
      var s, j :| 0 <= s < i + 1 && 0 <= j < |b[s]| && b[s][j] == y;
    }
  }

  /** Appending the first `i` old chains to an empty table gives exactly their nodes. */
  lemma {:induction false} AppendChainsNodes(capa: nat, b: Buckets, i: nat)
    requires capa >= 1 && i <= |b|
    ensures Nodes(AppendChains(Empty(capa), b, i)) == NodesBelow(b, i)
    decreases i
  {
    if i == 0 {
      assert Nodes(Empty(capa)) == {};
    } else {
      AppendChainsNodes(capa, b, i - 1);
      AppendFirstNodes(AppendChains(Empty(capa), b, i - 1), b[i - 1], |b[i - 1]|);
      NodesBelowStep(b, i - 1);
    }
  }

  /** ... and their node count. */
  lemma {:induction false} AppendChainsSize(capa: nat, b: Buckets, i: nat)
    requires capa >= 1 && i <= |b|
    ensures Size(AppendChains(Empty(capa), b, i)) == Size(b[..i])
    decreases i
  {
    if i == 0 {
      SizeEmpty(capa);
      assert b[..0] == [];
    } else {
      AppendChainsSize(capa, b, i - 1);
      AppendFirstSize(AppendChains(Empty(capa), b, i - 1), b[i - 1], |b[i - 1]|);
      PrefixStep(b, i - 1);
    }
  }

  /** Before chain `i` is moved, none of its keys is in the new table, which holds only nodes of earlier slots. */
  lemma MovedChainFresh(b: Buckets, i: nat, pre: Buckets)
    requires i < |b| && WellPlaced(b) && |pre| >= 1
    requires Nodes(pre) == NodesBelow(b, i)
    ensures forall m :: 0 <= m < |b[i]| ==> Absent(pre, b[i][m].key)
  {
    forall m | 0 <= m < |b[i]| ensures Absent(pre, b[i][m].key) {
      var c := pre[Slot(b[i][m].key, |pre|)];
      forall j | 0 <= j < |c| ensures c[j].key != b[i][m].key {
        assert c[j] in Nodes(pre);
        var s, j' :| 0 <= s < i && 0 <= j' < |b[s]| && b[s][j'] == c[j];
      }
    }
  }

  /** The new table stays free of duplicates while the old chains are appended. */
  lemma {:induction false} AppendChainsUnique(capa: nat, b: Buckets, i: nat)
    requires capa >= 1 && i <= |b| && WellPlaced(b) && UniqueKeys(b)
    ensures UniqueKeys(AppendChains(Empty(capa), b, i))
    decreases i
  {
    if i > 0 {
      var pre := AppendChains(Empty(capa), b, i - 1);
      AppendChainsUnique(capa, b, i - 1);
      AppendChainsNodes(capa, b, i - 1);
      MovedChainFresh(b, i - 1, pre);
      AppendFirstUnique(pre, b[i - 1], |b[i - 1]|);
    }
  }

  /** Moving the old chains of a table whose duplicates are neighbours, node by node, is appending them. */
  lemma {:induction false} MoveChainsAppends(capa: nat, b: Buckets, i: nat)
    requires capa >= 1 && i <= |b| && WellPlaced(b) && PairedKeys(b)
    ensures MoveChains(Empty(capa), b, i) == AppendChains(Empty(capa), b, i)
    decreases i
  {
    if i > 0 {
      var pre := AppendChains(Empty(capa), b, i - 1);
      MoveChainsAppends(capa, b, i - 1);
      AppendChainsNodes(capa, b, i - 1);
      MovedChainFresh(b, i - 1, pre);
      InsertFirstAppends(pre, b[i - 1], |b[i - 1]|);
    }
  }

  /**
   * A rehash of a table whose duplicates are neighbours is the plain
   * distribution of its nodes: it keeps exactly them and their count, places
   * them all, keeps duplicates on neighbours and creates none.
   */
  lemma RehashPreservesNodes(b: Buckets)
    requires |b| >= 1 && WellPlaced(b) && PairedKeys(b)
    ensures Rehashed(b) == AppendChains(Empty(2 * |b|), b, |b|)
    ensures Nodes(Rehashed(b)) == Nodes(b)
    ensures Size(Rehashed(b)) == Size(b)
    ensures WellPlaced(Rehashed(b)) && PairedKeys(Rehashed(b))
    ensures UniqueKeys(b) ==> UniqueKeys(Rehashed(b))
  {
    MoveChainsAppends(2 * |b|, b, |b|);
    AppendChainsNodes(2 * |b|, b, |b|);
    AppendChainsSize(2 * |b|, b, |b|);
    if UniqueKeys(b) {
      AppendChainsUnique(2 * |b|, b, |b|);
    }
    assert b[..|b|] == b;
    RehashedWellPlaced(b);
    RehashedPaired(b);
  }

  /** Appending a node never changes a lookup that already succeeds. */
  lemma AppendNodeKeepsLookup(b: Buckets, x: Item, k: Key)
    requires |b| >= 1 && Lookup(b, k).Some?
    ensures Lookup(AppendNode(b, x), k) == Lookup(b, k)
  {
    if Slot(x.key, |b|) == Slot(k, |b|) {
      ChainLookupSnoc(b[Slot(k, |b|)], x, k);
    }
  }

  /** ... nor does appending items `m` to `n - 1` of a chain. */
  lemma {:induction false} AppendFirstKeepsLookup(t: Buckets, c: Chain, m: nat, n: nat, k: Key)
    requires |t| >= 1 && m <= n <= |c| && Lookup(AppendFirst(t, c, m), k).Some?
    ensures Lookup(AppendFirst(t, c, n), k) == Lookup(AppendFirst(t, c, m), k)
    decreases n
  {
    if n > m {
      AppendFirstKeepsLookup(t, c, m, n - 1, k);
      AppendNodeKeepsLookup(AppendFirst(t, c, n - 1), c[n - 1], k);
    }
  }

  /** ... nor does appending the whole chains of slots `i` to `j - 1`. */
  lemma {:induction false} AppendChainsKeepsLookup(t: Buckets, source: Buckets, i: nat, j: nat, k: Key)
    requires |t| >= 1 && i <= j <= |source| && Lookup(AppendChains(t, source, i), k).Some?
    ensures Lookup(AppendChains(t, source, j), k) == Lookup(AppendChains(t, source, i), k)
    decreases j
  {
    if j > i {
      AppendChainsKeepsLookup(t, source, i, j - 1, k);
      AppendFirstKeepsLookup(AppendChains(t, source, j - 1), source[j - 1], 0, |source[j - 1]|, k);
    }
  }

  /** Appending a node whose key its slot lacks makes a lookup of that key find it. */
  lemma AppendNodeHit(b: Buckets, x: Item)
    requires |b| >= 1 && Absent(b, x.key)
    ensures Lookup(AppendNode(b, x), x.key) == Some(x.value)
  {
    var i := Slot(x.key, |b|);
    assert AppendNode(b, x)[i] == b[i] + [x];
    ChainLookupSnoc(b[i], x, x.key);
  }

  /** Appending a chain to a table that lacks `k` makes a lookup of `k` find the chain's first node with it, from that node on. */
  lemma {:induction false} AppendFirstHit(t: Buckets, c: Chain, p: nat, n: nat, k: Key)
    requires |t| >= 1 && p < n <= |c| && Absent(t, k) && c[p].key == k
    requires forall q :: 0 <= q < p ==> c[q].key != k
    ensures Lookup(AppendFirst(t, c, n), k) == Some(c[p].value)
    decreases n
  {
    if n == p + 1 {
      AppendFirstAbsent(t, c, p, k);
      AppendNodeHit(AppendFirst(t, c, p), c[p]);
    } else {
      AppendFirstHit(t, c, p, n - 1, k);
      AppendNodeKeepsLookup(AppendFirst(t, c, n - 1), c[n - 1], k);
    }
  }

  /** In a well-placed table, a lookup succeeds exactly when some node holds the key. */
  lemma LookupFindsNode(b: Buckets, key: Key)
    requires |b| >= 1 && WellPlaced(b)
    ensures Lookup(b, key).Some? <==> exists v :: Item(key, v) in Nodes(b)
  {
    var i := Slot(key, |b|);
    if Lookup(b, key).Some? {
      var p := FirstMatch(b[i], key).value;
      assert b[i][p] == Item(key, b[i][p].value);
      assert Item(key, b[i][p].value) in Nodes(b);
    }
    if exists v :: Item(key, v) in Nodes(b) {
      var v :| Item(key, v) in Nodes(b);
      var s, j :| 0 <= s < |b| && 0 <= j < |b[s]| && b[s][j] == Item(key, v);
      assert s == i;
    }
  }

  /**
   * A rehash of a well-placed table whose duplicates are neighbours answers
   * every lookup as before: the key's old chain is the only source of its
   * nodes, and its first node with the key is appended before any other.
   */
  lemma RehashPreservesLookup(b: Buckets, key: Key)
    requires |b| >= 1 && WellPlaced(b) && PairedKeys(b)
    ensures Lookup(Rehashed(b), key) == Lookup(b, key)
  {
    RehashPreservesNodes(b);
    LookupFindsNode(b, key);
    LookupFindsNode(Rehashed(b), key);
    if Lookup(b, key).Some? {
      var i := Slot(key, |b|);
      var c := b[i];
      var p := FirstMatch(c, key).value;
      var e := Empty(2 * |b|);
      var pre := AppendChains(e, b, i);
      AppendChainsNodes(2 * |b|, b, i);
      MovedChainFresh(b, i, pre);
      assert Absent(pre, c[p].key);
      AppendFirstHit(pre, c, p, |c|, key);
      AppendChainsKeepsLookup(e, b, i + 1, |b|, key);
    }
  }

  /** The one-byte keys 1, 2 and 3 hash to 31, 62 and 93: slots 1, 0 and 1 of a two-slot table. */
  lemma KeySlots()
    ensures Slot([1], 2) == 1 && Slot([2], 2) == 0 && Slot([3], 2) == 1
  {
    assert HashPrefix([1], 0) == 0 && HashPrefix([2], 0) == 0 && HashPrefix([3], 0) == 0;
    assert HashCode([1]) == 31 && HashCode([2]) == 62 && HashCode([3]) == 93;
    RemIsMod(31, 2);
    RemIsMod(62, 2);
    RemIsMod(93, 2);
  }

  /**
   * A one-slot table as `hash_set` leaves it after setting bytes 2 = 0 and
   * 1 = 1, then 1 = 2 (the blind spot): the neighbouring copies of key 1
   * both survive the rehash, in order, in the slot key 1 hashes to.
   */
  lemma RehashKeepsPairExample()
    ensures Rehashed([[Item([2], 0), Item([1], 1), Item([1], 2)]])
         == [[Item([2], 0)], [Item([1], 1), Item([1], 2)]]
  {
    var c: Chain := [Item([2], 0), Item([1], 1), Item([1], 2)];
    KeySlots();
    var e := Empty(2);
    var r1: Buckets := [[Item([2], 0)], []];
    var r2: Buckets := [[Item([2], 0)], [Item([1], 1)]];
    assert InsertFirst(e, c, 1) == r1;
    assert InsertFirst(e, c, 2) == r2;
    assert ComparedMatch(r2[1], [1]).None?;
    assert InsertChain(r2[1], [1], 2) == [Item([1], 1), Item([1], 2)];
    assert InsertFirst(e, c, 3) == Insert(r2, [1], 2);
    assert Insert(r2, [1], 2) == r2[1 := [Item([1], 1), Item([1], 2)]];
  }

  /**
   * Why the rehash lemmas ask for duplicates on neighbours: with a node of
   * another key between two copies of key 1, and that key hashing to the
   * same new slot, the rehash overwrites the first copy and loses a node.
   * `hash_set` never builds such a chain (InsertKeepsPaired, RehashedPaired).
   */
  lemma RehashMergesSplitDuplicateExample()
    ensures !PairedKeys([[Item([1], 1), Item([3], 0), Item([1], 2)]])
    ensures Rehashed([[Item([1], 1), Item([3], 0), Item([1], 2)]])
         == [[], [Item([1], 2), Item([3], 0)]]
  {
    var c: Chain := [Item([1], 1), Item([3], 0), Item([1], 2)];
    assert !AdjacentDuplicates(c) by {
      assert c[0].key == c[2].key;
    }
    assert [c][0] == c;
    KeySlots();
    var e := Empty(2);
    var r1: Buckets := [[], [Item([1], 1)]];
    var r2: Buckets := [[], [Item([1], 1), Item([3], 0)]];
    assert InsertFirst(e, c, 1) == r1;
    assert ComparedMatch(r1[1], [3]).None?;
    assert InsertChain(r1[1], [3], 0) == r2[1];
    assert InsertFirst(e, c, 2) == Insert(r1, [3], 0);
    assert Insert(r1, [3], 0) == r2;
    assert FirstMatch([Item([1], 1)], [1]) == Some(0);
    assert ComparedMatch(r2[1], [1]) == Some(0);
    assert InsertChain(r2[1], [1], 2) == [Item([1], 2), Item([3], 0)];
    assert InsertFirst(e, c, 3) == Insert(r2, [1], 2);
    assert Insert(r2, [1], 2) == r2[1 := [Item([1], 2), Item([3], 0)]];
  }

  // ---------------------------------------------------------------------
  // `hash_set` then `hash_get`.

  /**
   * What `hash_get` returns after `hash_set_internal`, with or without a
   * rehash: another key's lookup is unchanged; the key finds the new value,
   * except in the blind spot, where it keeps finding the old one. The table
   * stays well placed with duplicates only on neighbours, gains a duplicate
   * only in the blind spot, and counts the one node an append adds.
   */
  lemma SetThenLookup(b: Buckets, key: Key, value: int, canRehash: bool, k2: Key)
    requires |b| >= 1 && WellPlaced(b) && PairedKeys(b)
    ensures Lookup(SetTable(b, key, value, canRehash), k2)
         == if k2 != key then Lookup(b, k2)
            else if TailOnly(b[Slot(key, |b|)], key) then Lookup(b, key)
            else Some(value)
    ensures WellPlaced(SetTable(b, key, value, canRehash)) && PairedKeys(SetTable(b, key, value, canRehash))
    ensures UniqueKeys(b) && !TailOnly(b[Slot(key, |b|)], key) ==> UniqueKeys(SetTable(b, key, value, canRehash))
    ensures Size(SetTable(b, key, value, canRehash)) == Size(b) + (if Appends(b[Slot(key, |b|)], key) then 1 else 0)
  {
    var inserted := Insert(b, key, value);
    LookupAfterInsert(b, key, value, k2);
    InsertWellPlaced(b, key, value);
    InsertKeepsPaired(b, key, value);
    InsertSize(b, key, value);
    if UniqueKeys(b) {
      InsertKeepsUnique(b, key, value);
    }
    if canRehash && RehashFlag(b[Slot(key, |b|)], key) {
      RehashPreservesLookup(inserted, k2);
      RehashPreservesNodes(inserted);
    }
  }

  /** `hash_get` right after `hash_set` of the same key: the value just set, or in the blind spot the old answer. */
  lemma GetAfterSet(b: Buckets, key: Key, value: int)
    requires |b| >= 1 && WellPlaced(b) && PairedKeys(b)
    ensures GetOutcome(SetTable(b, key, value, true), key)
         == if TailOnly(b[Slot(key, |b|)], key) then GetOutcome(b, key) else Success(value)
  {
    SetThenLookup(b, key, value, true, key);
    if TailOnly(b[Slot(key, |b|)], key) {
      var c := b[Slot(key, |b|)];
      assert c[|c| - 1].key == key;
    }
  }
}
