/**
 * The table of hash_table/hash.c as a mutable object: `struct hash` becomes the
 * class `Hash`, whose bucket array `ary` is updated in place and whose `len`
 * and `capa` fields are kept in step with it. `Set`, `SetInternal` and
 * `Rehash` are proved to leave exactly the buckets that TableSpec's `SetTable`,
 * `Insert` and `Rehashed` describe, `Get` to return `GetOutcome` and change
 * nothing; `ItemNew`, `ItemFree`, the constructor and `Free` state their
 * effect on the live-object counters.
 */
module HashTable {
  import opened Wrappers
  import opened KeyHash
  import opened TableSpec

  /** The live-object counters `item_count` and `hash_count`. */
  class Counters {
    var itemCount: int
    var hashCount: int

    constructor ()
      ensures itemCount == 0 && hashCount == 0
    {
      itemCount, hashCount := 0, 0;
    }
  }

  /** `item_new`: a node holding its own copy of the key, counted as live. */
  method ItemNew(key: Key, value: int, counters: Counters) returns (item: Item)
    modifies counters
    ensures item == Item(key, value)
    ensures counters.itemCount == old(counters.itemCount) + 1
    ensures counters.hashCount == old(counters.hashCount)
  {
    item := Item(key, value);
    counters.itemCount := counters.itemCount + 1;
  }

  /** `item_free`: the node is released and no longer counted. */
  method ItemFree(item: Item, counters: Counters)
    modifies counters
    ensures counters.itemCount == old(counters.itemCount) - 1
    ensures counters.hashCount == old(counters.hashCount)
  {
    counters.itemCount := counters.itemCount - 1;
  }

  class Hash {
    var ary: array<Chain>
    var len: int
    var capa: int

    /**
     * The fields agree: `capa` slots, `len` reachable nodes, each in its key's
     * slot, and a key held twice in a chain only on neighbouring nodes.
     */
    ghost predicate Valid()
      reads this, ary
    {
      && capa == ary.Length
      && capa >= 1
      && len == Size(ary[..])
      && WellPlaced(ary[..])
      && PairedKeys(ary[..])
    }

    /** `hash_new`: `capa` empty slots. */
    constructor (capa: int, counters: Counters)
      requires capa >= 1
      modifies counters
      ensures Valid() && fresh(ary)
      ensures this.capa == capa && len == 0 && ary[..] == Empty(capa)
      ensures counters.hashCount == old(counters.hashCount) + 1
      ensures counters.itemCount == old(counters.itemCount)
    {
      ary := new Chain[capa](_ => []);
      len := 0;
      this.capa := capa;
      new;
      assert ary[..] == Empty(capa);
      SizeEmpty(capa);
      counters.hashCount := counters.hashCount + 1;
    }

    /** `hash_set`: insertion with growth allowed. */
    method Set(key: Key, value: int, counters: Counters)
      requires Valid()
      modifies this, ary, counters
      ensures Valid()
      ensures ary[..] == SetTable(old(ary[..]), key, value, true)
      ensures ary == old(ary) || fresh(ary)
      ensures capa == old(capa) || capa == 2 * old(capa)
      ensures counters.itemCount - len == old(counters.itemCount - len)
      ensures counters.hashCount == old(counters.hashCount)
    {
      SetInternal(key, value, true, counters);
    }

    /**
     * `hash_set_internal`. The walk mirrors `while (top->next)`: `top` is the
     * position of the current node, and only a node with a successor is compared.
     */
    method SetInternal(key: Key, value: int, canRehash: bool, counters: Counters)
      requires Valid()
      modifies this, ary, counters
      decreases if canRehash then 4 else 0
      ensures Valid()
      ensures canRehash ==> ary[..] == SetTable(old(ary[..]), key, value, true)
      ensures canRehash ==> (ary == old(ary) || fresh(ary)) && (capa == old(capa) || capa == 2 * old(capa))
      ensures !canRehash ==> ary == old(ary) && capa == old(capa) && ary[..] == Insert(old(ary[..]), key, value)
      ensures counters.itemCount - len == old(counters.itemCount - len)
      ensures counters.hashCount == old(counters.hashCount)
    {
      ghost var before := ary[..];
      var chain := 0;
      var rehash := false;
      var hash := Hashing(key);
      var keyIndex := hash % capa;
      RemIsMod(hash, capa);
      assert keyIndex == Slot(key, |before|);
      var nodes := ary[keyIndex];
      InsertWellPlaced(before, key, value);
      InsertSize(before, key, value);
      InsertKeepsPaired(before, key, value);

      if nodes == [] {
        var item := ItemNew(key, value, counters);
        ary[keyIndex] := [item];
        len := len + 1;
        assert ary[..] == Insert(before, key, value);
        return;
      }

      var top := 0;
      while top + 1 < |nodes|
        invariant 0 <= top < |nodes|
        invariant chain == top
        invariant rehash == (top > MAX_CHAIN)
        invariant forall j :: 0 <= j < top ==> nodes[j].key != key
      {
        if nodes[top].key == key {
          assert ComparedMatch(nodes, key) == Some(top);
          ary[keyIndex] := nodes[top := nodes[top].(value := value)];
          assert ary[..] == Insert(before, key, value);
          return;
        }
        if MAX_CHAIN <= chain {
          rehash := true;
        }
        chain := chain + 1;
        top := top + 1;
      }

      assert ComparedMatch(nodes, key).None?;
      var item := ItemNew(key, value, counters);
      ary[keyIndex] := nodes + [item];
      len := len + 1;
      assert ary[..] == Insert(before, key, value);

      if canRehash && rehash {
        Rehash(counters);
      }
    }

    /**
     * `hash_rehash`: a table of twice the capacity receives every node, in
     * slot then chain order, with growth disabled; then its fields replace
     * ours (`*h = *new_h`) and the emptied shell is released.
     */
    method Rehash(counters: Counters)
      requires Valid()
      modifies this, counters
      decreases 3
      ensures Valid() && fresh(ary)
      ensures ary[..] == Rehashed(old(ary[..]))
      ensures capa == 2 * old(capa)
      ensures counters.itemCount - len == old(counters.itemCount - len)
      ensures counters.hashCount == old(counters.hashCount)
    {
      var newH := new Hash(capa * 2, counters);
      newH.ReinsertTable(ary, counters);
      ary, len, capa := newH.ary, newH.len, newH.capa;
      counters.hashCount := counters.hashCount - 1;
    }

    /**
     * The outer loop of `hash_rehash`, run on the new table: the chains of
     * `source` are moved slot by slot.
     */
    method ReinsertTable(source: array<Chain>, counters: Counters)
      requires Valid() && ary != source
      modifies this, ary, counters
      decreases 2
      ensures Valid() && ary == old(ary) && capa == old(capa)
      ensures ary[..] == MoveChains(old(ary[..]), old(source[..]), source.Length)
      ensures counters.itemCount == old(counters.itemCount) - Size(source[..]) + (len - old(len))
      ensures counters.hashCount == old(counters.hashCount)
    {
      ghost var start, moved := ary[..], source[..];
      for i := 0 to source.Length
        invariant Valid() && ary == old(ary) && capa == old(capa)
        invariant source[..] == moved
        invariant ary[..] == MoveChains(start, moved, i)
        invariant counters.itemCount == old(counters.itemCount) - Size(moved[..i]) + (len - old(len))
        invariant counters.hashCount == old(counters.hashCount)
      {
        ghost var pre := ary[..];
        ReinsertChain(source[i], counters);
        MoveChainsStep(start, moved, i, pre, ary[..]);
        PrefixStep(moved, i);
      }
      assert moved[..|moved|] == moved;
    }

    /**
     * The inner loop of `hash_rehash`, run on the new table: each node of one
     * old chain, in order, is reinserted with growth disabled and then released.
     */
    method ReinsertChain(nodes: Chain, counters: Counters)
      requires Valid()
      modifies this, ary, counters
      decreases 1
      ensures Valid() && ary == old(ary) && capa == old(capa)
      ensures ary[..] == InsertFirst(old(ary[..]), nodes, |nodes|)
      ensures counters.itemCount == old(counters.itemCount) - |nodes| + (len - old(len))
      ensures counters.hashCount == old(counters.hashCount)
    {
      ghost var start := ary[..];
      for j := 0 to |nodes|
        invariant Valid() && ary == old(ary) && capa == old(capa)
        invariant ary[..] == InsertFirst(start, nodes, j)
        invariant counters.itemCount == old(counters.itemCount) - j + (len - old(len))
        invariant counters.hashCount == old(counters.hashCount)
      {
        ghost var pre := ary[..];
        SetInternal(nodes[j].key, nodes[j].value, false, counters);
        InsertFirstStep(start, nodes, j, pre, ary[..]);
        ItemFree(nodes[j], counters);
      }
    }

    /** `hash_get`: a full scan of the key's chain, tail included; a miss is one of the two fatal errors. */
    method Get(key: Key) returns (r: Result<int, GetError>)
      requires Valid()
      ensures r == GetOutcome(ary[..], key)
    {
      var hash := Hashing(key);
      var nodes := ary[hash % capa];
      RemIsMod(hash, capa);
      assert nodes == ary[..][Slot(key, capa)];
      if nodes != [] {
        var item := 0;
        while item < |nodes|
          invariant 0 <= item <= |nodes|
          invariant forall j :: 0 <= j < item ==> nodes[j].key != key
        {
          if nodes[item].key == key {
            assert FirstMatch(nodes, key) == Some(item);
            return Success(nodes[item].value);
          }
          item := item + 1;
        }
        return Failure(KeyNotFound);
      } else {
        return Failure(ItemNotFound);
      }
    }

    /** `hash_free`: every node of every chain is released, then the table itself. */
    method Free(counters: Counters)
      requires Valid()
      modifies counters
      ensures counters.itemCount == old(counters.itemCount) - len
      ensures counters.hashCount == old(counters.hashCount) - 1
    {
      for i := 0 to capa
        invariant counters.itemCount == old(counters.itemCount) - Size(ary[..i])
        invariant counters.hashCount == old(counters.hashCount)
      {
        var nodes := ary[i];
        for item := 0 to |nodes|
          invariant counters.itemCount == old(counters.itemCount) - Size(ary[..i]) - item
          invariant counters.hashCount == old(counters.hashCount)
        {
          ItemFree(nodes[item], counters);
        }
        PrefixStep(ary[..], i);
        assert ary[..][..i] == ary[..i] && ary[..][..i + 1] == ary[..i + 1];
      }
      assert ary[..capa] == ary[..];
      counters.hashCount := counters.hashCount - 1;
    }
  }
}
