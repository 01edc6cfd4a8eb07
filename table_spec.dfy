/**
 * The separate-chaining table of hash_table/hash.c, as values.
 *
 * A table is a sequence of buckets, one per slot (its length is the capacity);
 * each bucket is the chain hanging from that slot, head first. A node's `next`
 * link is its position in the chain. The functions below say what
 * `hash_set_internal`, `hash_rehash` and `hash_get` compute; the class in
 * module HashTable is proved to compute exactly that.
 */
module TableSpec {
  import opened Wrappers
  import opened KeyHash

  /** MAX_CHAIN: the walk counter value from which an insertion asks for a rehash. */
  const MAX_CHAIN: nat := 3

  /** `struct item` without its `next` link. */
  datatype Item = Item(key: Key, value: int)

  type Chain = seq<Item>

  type Buckets = seq<Chain>

  /** The bucket index `hashing(key) % capa`, shared by insertion and lookup. */
  function Slot(key: Key, capa: nat): (i: nat)
    requires capa >= 1
    ensures i < capa
  {
    Rem(HashCode(key), capa)
  }

  /**
   * `h % capa` by repeated subtraction: a recursive definition keeps the
   * nonlinear `%` out of the quantified placement lemmas; RemIsMod equates the two.
   */
  function Rem(h: nat, capa: nat): (r: nat)
    requires capa >= 1
    ensures r < capa
    decreases h
  {
    if h < capa then h else Rem(h - capa, capa)
  }

  lemma {:induction false} RemIsMod(h: nat, capa: nat)
    requires capa >= 1
    ensures Rem(h, capa) == h % capa
    decreases h
  {
    if h >= capa {
      RemIsMod(h - capa, capa);
      ModShift(h - capa, capa);
    }
  }

  /** Adding the divisor once leaves the remainder unchanged. */
  lemma ModShift(x: nat, d: nat)
    requires d >= 1
    ensures (x + d) % d == x % d
  {
    var q1, r1 := x / d, x % d;
    var q2, r2 := (x + d) / d, (x + d) % d;
    assert d * (q2 - q1 - 1) == r1 - r2;
    MultipleBelow(d, q2 - q1 - 1);
  }

  /** A multiple of `d` strictly between -d and d is zero. */
  lemma MultipleBelow(d: int, k: int)
    requires d >= 1 && -d < d * k < d
    ensures k == 0
  {
  }

  /** A freshly zeroed bucket array (`hash_new`). */
  function Empty(capa: nat): (b: Buckets)
    ensures |b| == capa
    ensures forall i :: 0 <= i < capa ==> b[i] == []
  {
    seq(capa, _ => [])
  }

  /** The number of nodes reachable from all slots. */
  function Size(b: Buckets): nat
  {
    if b == [] then 0 else Size(b[..|b| - 1]) + |b[|b| - 1]|
  }

  /** Every node hangs from the slot its key hashes to under the current capacity. */
  ghost predicate WellPlaced(b: Buckets)
  {
    forall i, j :: 0 <= i < |b| && 0 <= j < |b[i]| ==> Slot(b[i][j].key, |b|) == i
  }

  ghost predicate Distinct(c: Chain)
  {
    forall j1, j2 :: 0 <= j1 < j2 < |c| ==> c[j1].key != c[j2].key
  }

  /** No chain holds the same key twice. */
  ghost predicate UniqueKeys(b: Buckets)
  {
    forall i :: 0 <= i < |b| ==> Distinct(b[i])
  }

  /**
   * Two nodes of a chain with the same key are neighbours. Insertions never
   * leave more: the blind spot appends a second copy right after a tail that
   * holds the key, and every later append goes after both copies.
   */
  ghost predicate AdjacentDuplicates(c: Chain)
  {
    forall j1, j2 :: 0 <= j1 < j2 < |c| && c[j1].key == c[j2].key ==> j2 == j1 + 1
  }

  /** Every chain holds its duplicate keys, if any, on neighbouring nodes. */
  ghost predicate PairedKeys(b: Buckets)
  {
    forall i :: 0 <= i < |b| ==> AdjacentDuplicates(b[i])
  }

  /** The position of the first node of `c` whose key is `key`, if any. */
  function FirstMatch(c: Chain, key: Key): (r: Option<nat>)
    ensures r.Some? ==> r.value < |c| && c[r.value].key == key
    ensures r.Some? ==> forall j :: 0 <= j < r.value ==> c[j].key != key
    ensures r.None? <==> forall j :: 0 <= j < |c| ==> c[j].key != key
  {
    if c == [] then None
    else if c[0].key == key then Some(0)
    else match FirstMatch(c[1..], key)
      case None => None
      case Some(j) => Some(j + 1)
  }

  /**
   * The match the insertion walk finds. The walk compares a node only while it
   * has a successor, so the tail of the chain (and a lone head) is never compared.
   */
  function ComparedMatch(c: Chain, key: Key): (r: Option<nat>)
    ensures r.Some? ==> r.value + 1 < |c| && c[r.value].key == key
    ensures r.Some? ==> forall j :: 0 <= j < r.value ==> c[j].key != key
    ensures r.None? <==> forall j :: 0 <= j < |c| - 1 ==> c[j].key != key
  {
    if c == [] then None else FirstMatch(c[..|c| - 1], key)
  }

  /** The insertion adds a node (empty slot, or no compared node matched). */
  predicate Appends(c: Chain, key: Key)
    ensures Appends(c, key) <==> c == [] || forall j :: 0 <= j < |c| - 1 ==> c[j].key != key
  {
    c == [] || ComparedMatch(c, key).None?
  }

  /**
   * The `rehash` flag at the end of the walk: the walk ran |c| - 1 iterations
   * without a match, and the flag is raised on an iteration whose counter is
   * at least MAX_CHAIN.
   */
  predicate RehashFlag(c: Chain, key: Key)
    ensures RehashFlag(c, key) <==> c != [] && (forall j :: 0 <= j < |c| - 1 ==> c[j].key != key) && |c| >= MAX_CHAIN + 2
  {
    c != [] && ComparedMatch(c, key).None? && |c| - 1 > MAX_CHAIN
  }

  /** The chain after the walk: a one-node chain, an overwritten node, or an appended tail. */
  function InsertChain(c: Chain, key: Key, value: int): (r: Chain)
    ensures |r| == |c| + (if Appends(c, key) then 1 else 0)
  {
    if c == [] then [Item(key, value)]
    else match ComparedMatch(c, key)
      case Some(j) => c[j := c[j].(value := value)]
      case None => c + [Item(key, value)]
  }

  /** `hash_set_internal` with `can_rehash` false: only the key's own slot changes. */
  function Insert(b: Buckets, key: Key, value: int): (r: Buckets)
    requires |b| >= 1
    ensures |r| == |b|
  {
    var i := Slot(key, |b|);
    b[i := InsertChain(b[i], key, value)]
  }

  /** Inserting the first `n` of `items` one after another, in order, with growth disabled. */
  function InsertFirst(b: Buckets, items: Chain, n: nat): (r: Buckets)
    requires |b| >= 1 && n <= |items|
    ensures |r| == |b|
    decreases n
  {
    if n == 0 then b
    else Insert(InsertFirst(b, items, n - 1), items[n - 1].key, items[n - 1].value)
  }

  /** The whole chains of the first `i` slots of `source`, slot by slot, inserted into `b`. */
  function MoveChains(b: Buckets, source: Buckets, i: nat): (r: Buckets)
    requires |b| >= 1 && i <= |source|
    ensures |r| == |b|
    decreases i
  {
    if i == 0 then b
    else InsertFirst(MoveChains(b, source, i - 1), source[i - 1], |source[i - 1]|)
  }

  /** `hash_rehash`: every node, in slot then chain order, reinserted into a table of twice the capacity. */
  function Rehashed(b: Buckets): (r: Buckets)
    requires |b| >= 1
    ensures |r| == 2 * |b|
  {
    MoveChains(Empty(2 * |b|), b, |b|)
  }

  /** `hash_set_internal`: the insertion, followed by a rehash when it appended, the flag was raised and growth is allowed. */
  function SetTable(b: Buckets, key: Key, value: int, canRehash: bool): (r: Buckets)
    requires |b| >= 1
    ensures |r| == (if canRehash && RehashFlag(b[Slot(key, |b|)], key) then 2 * |b| else |b|)
  {
    var inserted := Insert(b, key, value);
    if canRehash && RehashFlag(b[Slot(key, |b|)], key) then Rehashed(inserted) else inserted
  }

  /** The value of the first node of `c`, tail included, whose key is `key`. */
  function ChainLookup(c: Chain, key: Key): (r: Option<int>)
    ensures r.None? <==> forall j :: 0 <= j < |c| ==> c[j].key != key
  {
    match FirstMatch(c, key)
    case None => None
    case Some(j) => Some(c[j].value)
  }

  /** What `hash_get` finds: a lookup in the chain of the key's slot. */
  function Lookup(b: Buckets, key: Key): (r: Option<int>)
    requires |b| >= 1
    ensures r.None? <==> forall j :: 0 <= j < |b[Slot(key, |b|)]| ==> b[Slot(key, |b|)][j].key != key
  {
    ChainLookup(b[Slot(key, |b|)], key)
  }

  /** The two `fatal` messages of `hash_get`. */
  datatype GetError = ItemNotFound | KeyNotFound

  /** `hash_get`, with its fatal exits as errors. */
  function GetOutcome(b: Buckets, key: Key): (r: Result<int, GetError>)
    requires |b| >= 1
    ensures r == Failure(ItemNotFound) <==> b[Slot(key, |b|)] == []
    ensures r == Failure(KeyNotFound) <==> b[Slot(key, |b|)] != [] && Lookup(b, key).None?
    ensures r.Success? <==> Lookup(b, key).Some?
    ensures r.Success? ==> r.value == Lookup(b, key).value
  {
    if b[Slot(key, |b|)] == [] then Failure(ItemNotFound)
    else match Lookup(b, key)
      case None => Failure(KeyNotFound)
      case Some(v) => Success(v)
  }

  // ---------------------------------------------------------------------
  // Facts the imperative table needs to keep its invariant.

  /** Every node of the new chain is the inserted one or the old node at the same position. */
  lemma InsertChainNodes(c: Chain, key: Key, value: int)
    ensures var r := InsertChain(c, key, value);
      forall j :: 0 <= j < |r| ==> r[j] == Item(key, value) || (j < |c| && r[j] == c[j])
  {
  }

  /** A position holding the key with no earlier such position is the one every scan finds. */
  lemma FirstMatchAt(c: Chain, key: Key, p: nat)
    requires p < |c| && c[p].key == key
    requires forall q :: 0 <= q < p ==> c[q].key != key
    ensures FirstMatch(c, key) == Some(p)
  {
    var r := FirstMatch(c, key);
    assert r.Some?;
    assert !(r.value < p);
  }

  /** A chain lookup returns the value of the first node that holds the key. */
  lemma ChainLookupFirst(c: Chain, key: Key, p: nat)
    requires p < |c| && c[p].key == key
    requires forall q :: 0 <= q < p ==> c[q].key != key
    ensures ChainLookup(c, key) == Some(c[p].value)
  {
    FirstMatchAt(c, key, p);
  }

  lemma {:induction false} SizeEmpty(capa: nat)
    ensures Size(Empty(capa)) == 0
  {
    if capa > 0 {
      assert Empty(capa)[..capa - 1] == Empty(capa - 1);
      SizeEmpty(capa - 1);
    }
  }

  /** Replacing one chain changes the node count by the difference in that chain's length. */
  lemma {:induction false} SizeUpdate(b: Buckets, i: nat, c: Chain)
    requires i < |b|
    ensures Size(b[i := c]) == Size(b) - |b[i]| + |c|
    decreases |b|
  {
    var n := |b|;
    if i < n - 1 {
      assert b[i := c][..n - 1] == b[..n - 1][i := c];
      SizeUpdate(b[..n - 1], i, c);
    } else {
      assert b[i := c][..n - 1] == b[..n - 1];
    }
  }

  lemma PrefixStep(b: Buckets, i: nat)
    requires i < |b|
    ensures Size(b[..i + 1]) == Size(b[..i]) + |b[i]|
  {
    assert b[..i + 1][..i] == b[..i];
  }

  /** An insertion counts exactly the node it appends. */
  lemma InsertSize(b: Buckets, key: Key, value: int)
    requires |b| >= 1
    ensures Size(Insert(b, key, value)) == Size(b) + (if Appends(b[Slot(key, |b|)], key) then 1 else 0)
  {
    var i := Slot(key, |b|);
    SizeUpdate(b, i, InsertChain(b[i], key, value));
  }

  /** An insertion keeps every node in its slot. */
  lemma InsertWellPlaced(b: Buckets, key: Key, value: int)
    requires |b| >= 1 && WellPlaced(b)
    ensures WellPlaced(Insert(b, key, value))
  {
    var i := Slot(key, |b|);
    InsertChainNodes(b[i], key, value);
    var r: Buckets := Insert(b, key, value);
    forall s: nat, j: nat | s < |r| && j < |r[s]|
      ensures Slot(r[s][j].key, |r|) == s
    {
      if s == i {
        assert r[s][j] == Item(key, value) || (j < |b[i]| && r[s][j] == b[i][j]);
      }
    }
  }

  /** One more reinsertion: the state after inserting item `n` is the run of the first `n + 1` items. */
  lemma InsertFirstStep(b: Buckets, items: Chain, n: nat, pre: Buckets, post: Buckets)
    requires |b| >= 1 && n < |items|
    requires pre == InsertFirst(b, items, n)
    requires post == Insert(pre, items[n].key, items[n].value)
    ensures post == InsertFirst(b, items, n + 1)
  {
  }

  /** One more chain moved: the state after reinserting chain `i` is the move of the first `i + 1` chains. */
  lemma MoveChainsStep(b: Buckets, source: Buckets, i: nat, pre: Buckets, post: Buckets)
    requires |b| >= 1 && i < |source|
    requires pre == MoveChains(b, source, i)
    requires post == InsertFirst(pre, source[i], |source[i]|)
    ensures post == MoveChains(b, source, i + 1)
  {
  }

  lemma {:induction false} InsertFirstWellPlaced(b: Buckets, items: Chain, n: nat)
    requires |b| >= 1 && WellPlaced(b) && n <= |items|
    ensures WellPlaced(InsertFirst(b, items, n))
    decreases n
  {
    if n > 0 {
      var pre := InsertFirst(b, items, n - 1);
      InsertFirstWellPlaced(b, items, n - 1);
      InsertWellPlaced(pre, items[n - 1].key, items[n - 1].value);
      assert InsertFirst(b, items, n) == Insert(pre, items[n - 1].key, items[n - 1].value);
    }
  }

  lemma {:induction false} MoveChainsWellPlaced(b: Buckets, source: Buckets, i: nat)
    requires |b| >= 1 && WellPlaced(b) && i <= |source|
    ensures WellPlaced(MoveChains(b, source, i))
    decreases i
  {
    if i > 0 {
      var pre := MoveChains(b, source, i - 1);
      MoveChainsWellPlaced(b, source, i - 1);
      InsertFirstWellPlaced(pre, source[i - 1], |source[i - 1]|);
      assert MoveChains(b, source, i) == InsertFirst(pre, source[i - 1], |source[i - 1]|);
    }
  }

  /** After a rehash every node hangs from its slot under the doubled capacity. */
  lemma RehashedWellPlaced(b: Buckets)
    requires |b| >= 1
    ensures WellPlaced(Rehashed(b))
  {
    MoveChainsWellPlaced(Empty(2 * |b|), b, |b|);
  }

  /** An insertion keeps duplicates on neighbours: an append is preceded by a comparison with every node but the tail. */
  lemma ChainKeepsPaired(c: Chain, key: Key, value: int)
    requires AdjacentDuplicates(c)
    ensures AdjacentDuplicates(InsertChain(c, key, value))
  {
    if c != [] {
      match ComparedMatch(c, key)
      case Some(j) =>
        var r := c[j := c[j].(value := value)];
        assert forall q :: 0 <= q < |r| ==> r[q].key == c[q].key;
      case None =>
        var r := c + [Item(key, value)];
        forall j1, j2 | 0 <= j1 < j2 < |r| && r[j1].key == r[j2].key
          ensures j2 == j1 + 1
        {
          assert r[j1] == c[j1];
          if j2 < |c| {
            assert r[j2] == c[j2];
          }
        }
    }
  }

  /** Every insertion keeps the duplicates of every chain on neighbouring nodes. */
  lemma InsertKeepsPaired(b: Buckets, key: Key, value: int)
    requires |b| >= 1 && PairedKeys(b)
    ensures PairedKeys(Insert(b, key, value))
  {
    var i := Slot(key, |b|);
    ChainKeepsPaired(b[i], key, value);
    var r := Insert(b, key, value);
    forall s | 0 <= s < |r| ensures AdjacentDuplicates(r[s]) {
      if s != i {
        assert r[s] == b[s];
      }
    }
  }

  lemma {:induction false} InsertFirstPaired(b: Buckets, items: Chain, n: nat)
    requires |b| >= 1 && PairedKeys(b) && n <= |items|
    ensures PairedKeys(InsertFirst(b, items, n))
    decreases n
  {
    if n > 0 {
      var pre := InsertFirst(b, items, n - 1);
      assert InsertFirst(b, items, n) == Insert(pre, items[n - 1].key, items[n - 1].value);
      InsertFirstPaired(b, items, n - 1);
      InsertKeepsPaired(pre, items[n - 1].key, items[n - 1].value);
    }
  }

  lemma {:induction false} MoveChainsPaired(b: Buckets, source: Buckets, i: nat)
    requires |b| >= 1 && PairedKeys(b) && i <= |source|
    ensures PairedKeys(MoveChains(b, source, i))
    decreases i
  {
    if i > 0 {
      var pre := MoveChains(b, source, i - 1);
      MoveChainsPaired(b, source, i - 1);
      InsertFirstPaired(pre, source[i - 1], |source[i - 1]|);
      assert MoveChains(b, source, i) == InsertFirst(pre, source[i - 1], |source[i - 1]|);
    }
  }

  /** Any table, rehashed, holds its duplicates on neighbouring nodes, since the rehash only inserts. */
  lemma RehashedPaired(b: Buckets)
    requires |b| >= 1
    ensures PairedKeys(Rehashed(b))
  {
    MoveChainsPaired(Empty(2 * |b|), b, |b|);
  }
}
