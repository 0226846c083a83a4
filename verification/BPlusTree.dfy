/** Lookup in a B+ tree whose pages live behind the buffer pool. */
module BPlusTreeLookup {
  import opened Bytes
  import opened Permutations
  import opened Records
  import opened PageStore
  import opened Pages
  import opened BufferPool
  import opened IndexPages

  class BPlusTree {
    const pool: BufferPoolManager
    var rootPageId: int

    /** The subtree is stored as the reader expects, and eviction can lose nothing. */
    ghost predicate Stores(t: Tree)
      reads pool, pool.replacer, pool.disk, pool.PageSet()
    {
      pool.Valid() && pool.Synced() && Ordered(t) && LaidOut(pool.Seen().view, t)
    }

    constructor (pool: BufferPoolManager, rootPageId: int)
      ensures this.pool == pool && this.rootPageId == rootPageId
    {
      this.pool, this.rootPageId := pool, rootPageId;
    }

    static method IsLeaf(page: Page?) returns (leaf: bool)
      ensures leaf == (page != null && IsLeafPage(page.data))
    {
      if page == null {
        return false;
      }
      leaf := IntAt(page.data, 0) == 1;
    }

    /** Upper bound among the keys of a page. */
    static method BinarySearch(page: Page?, key: Int32, ghost keys: seq<Int32>) returns (pos: nat)
      requires page != null ==> KeysStored(page.data, keys) && Ascending(keys)
      ensures if page == null then pos == 0 else UpperBound(keys, key, pos)
    {
      if page == null {
        return 0;
      }
      var size := IntAt(page.data, 1);
      var left, right: nat := 0, size;
      while left < right
        invariant 0 <= left <= right <= size
        invariant forall i :: 0 <= i < left ==> keys[i] <= key
        invariant forall i :: right <= i < size ==> key < keys[i]
      {
        var mid := (left + right) / 2;
        var currentKey := IntAt(page.data, 2 + mid);
        assert currentKey == keys[mid];
        if key >= currentKey {
          left := mid + 1;
        } else {
          right := mid;
        }
      }
      pos := left;
    }

    /** The child a lookup goes to from an inner page. */
    static method NextChild(page: Page, key: Int32, leftMost: bool, ghost t: Tree) returns (child: int)
      requires t.Node? && NodeStored(page.data, t.separators, t.children) && Ascending(t.separators)
      ensures var c := if leftMost then 0 else UpperPosition(t.separators, key);
              && c < |t.children| && child == t.children[c].id
              && (!leftMost ==> UpperBound(t.separators, key, c))
    {
      var childIndex: nat := 0;
      if !leftMost {
        childIndex := BinarySearch(page, key, t.separators);
        UpperBoundUnique(t.separators, key, childIndex);
      }
      var size := IntAt(page.data, 1);
      child := IntAt(page.data, 2 + size + 1 + childIndex);
    }

    /** Fetching the root page of a stored subtree. */
    method HoldPage(current: int, ghost t: Tree) returns (page: Page?)
      requires Stores(t) && current == t.id
      modifies pool, pool.replacer, pool.disk`blocks, pool.PageSet()
      ensures Stores(t) && fresh(pool.PageSet() - old(pool.PageSet())) && pool.Unsaved() == old(pool.Unsaved())
      ensures page == null <==> old(pool.Seen()).Full() && t.id !in old(pool.Seen()).pins
      ensures pool.Seen() == if page == null then old(pool.Seen()) else old(pool.Seen()).Pin(t.id)
      ensures page != null ==> page.pageId == t.id && page.data == pool.Seen().view[t.id] && RootStored(page.data, t)
    {
      hide BufferPoolManager.Valid, BufferPoolManager.Seen, BufferPoolManager.Unsaved, BufferPoolManager.Handles;
      hide BufferPoolManager.Placed, BufferPoolManager.Offered;
      hide BufferPoolManager.Model, BufferPoolManager.Object, BufferPoolManager.ViewLeft, BufferPoolManager.NextFrame;
      hide LaidOut, Ordered, RootStored;
      StoredRoot(pool.Seen().view, t);
      page := pool.FetchPage(current);
    }

    /** Releasing a page just held; `s` is what the pool showed before. */
    method LetGo(pageId: int, ghost s: Store)
      requires pool.Valid() && s.Ok() && s.Allocated(pageId) && pool.Seen() == s.Pin(pageId)
      requires pool.Unsaved() <= s.pins.Keys
      modifies pool.replacer, pool.PageSet()
      ensures pool.Valid() && pool.Synced() && pool.Seen() == s && pool.Unsaved() == old(pool.Unsaved())
    {
      hide BufferPoolManager.Valid, BufferPoolManager.Seen, BufferPoolManager.Unsaved, BufferPoolManager.Handles;
      PinUnpin(s, pageId);
      var _ := pool.UnpinPage(pageId, false);
    }

    /** One page of the descent: kept pinned if it is a leaf, released again otherwise. */
    method VisitPage(current: int, key: Int32, leftMost: bool, ghost t: Tree) returns (page: Page?, leaf: bool, child: int)
      requires Stores(t) && current == t.id
      modifies pool, pool.replacer, pool.disk`blocks, pool.PageSet()
      ensures Stores(t) && fresh(pool.PageSet() - old(pool.PageSet())) && pool.Unsaved() == old(pool.Unsaved())
      ensures page == null <==> old(pool.Seen()).Full() && t.id !in old(pool.Seen()).pins
      ensures page != null ==> leaf == t.Leaf?
      ensures page != null && leaf ==> pool.Seen() == old(pool.Seen()).Pin(t.id)
      ensures page != null && leaf ==> page.pageId == t.id && page.data == pool.Seen().view[t.id]
      ensures page == null || !leaf ==> pool.Seen() == old(pool.Seen())
      ensures page != null && !leaf ==>
                var c := if leftMost then 0 else UpperPosition(t.separators, key);
                c < |t.children| && child == t.children[c].id && (!leftMost ==> UpperBound(t.separators, key, c))
    {
      hide BufferPoolManager.Valid, BufferPoolManager.Seen, BufferPoolManager.Unsaved, BufferPoolManager.Handles;
      hide BufferPoolManager.Placed, BufferPoolManager.Offered;
      hide BufferPoolManager.Model, BufferPoolManager.Object, BufferPoolManager.ViewLeft, BufferPoolManager.NextFrame;
      hide LaidOut, Ordered, NodeStored, LeafStored, IntAt, KeysStored, UpperBound, UpperPosition, Ascending, HasKey;
      StoredRoot(pool.Seen().view, t);
      OrderedRoot(t);
      ghost var s := pool.Seen();
      leaf, child := false, -1;
      page := HoldPage(current, t);
      if page == null {
        return;
      }
      leaf := IsLeaf(page);
      if leaf {
        return;
      }
      child := NextChild(page, key, leftMost, t);
      LetGo(current, s);
    }

    /**
     * The one leaf that can hold the key, or the first leaf of all, pinned; null only without a tree, or when the pool
     * is full and a page on the way is not pinned already. Every page passed on the way is released.
     */
    method FindLeafPage(key: Int32, leftMost: bool, ghost t: Tree) returns (page: Page?, ghost leaf: Tree)
      requires rootPageId != -1 ==> Stores(t) && rootPageId == t.id
      modifies pool, pool.replacer, pool.disk`blocks, pool.PageSet()
      ensures rootPageId == -1 ==> page == null
      ensures rootPageId != -1 ==>
                Stores(leaf) && fresh(pool.PageSet() - old(pool.PageSet())) && pool.Unsaved() == old(pool.Unsaved())
      ensures rootPageId != -1 ==>
                (page == null <==>
                  Blocked(old(pool.Seen()).Full(), old(pool.Seen()).pins.Keys, Path(t, key, leftMost)))
      ensures rootPageId != -1 && page == null ==> pool.Seen() == old(pool.Seen())
      ensures page != null ==>
                LeafFor(t, key, leftMost) < |Leaves(t)| && leaf == Leaves(t)[LeafFor(t, key, leftMost)] && leaf.Leaf?
      ensures page != null ==> var path := Path(t, key, leftMost); path != [] && page.pageId == path[|path| - 1]
      ensures page != null ==> pool.Seen() == old(pool.Seen()).Pin(leaf.id)
      ensures page != null ==> page.pageId == leaf.id && page.data == pool.Seen().view[leaf.id]
      ensures page != null && !leftMost ==> Rids(leaf, key) == Rids(t, key)
    {
      hide BufferPoolManager.Valid, BufferPoolManager.Seen, BufferPoolManager.Unsaved, BufferPoolManager.Handles;
      hide BufferPoolManager.Placed, BufferPoolManager.Offered;
      hide BufferPoolManager.Model, BufferPoolManager.Object, BufferPoolManager.ViewLeft, BufferPoolManager.NextFrame;
      hide LaidOut, Ordered, Rids, Leaves, LeafFor;
      leaf, page := t, null;
      if rootPageId == -1 {
        return;
      }
      LookupEnds(t, key, leftMost);
      var current := rootPageId;
      while true
        invariant Stores(leaf) && current == leaf.id && fresh(pool.PageSet() - old(pool.PageSet()))
        invariant pool.Seen() == old(pool.Seen()) && pool.Unsaved() == old(pool.Unsaved())
        invariant var s := old(pool.Seen());
                  Blocked(s.Full(), s.pins.Keys, Path(leaf, key, leftMost)) ==
                  Blocked(s.Full(), s.pins.Keys, Path(t, key, leftMost))
        invariant !leftMost ==> Rids(leaf, key) == Rids(t, key)
        invariant LeafFor(leaf, key, leftMost) < |Leaves(leaf)|
        invariant Leaves(leaf)[LeafFor(leaf, key, leftMost)] == Leaves(t)[LeafFor(t, key, leftMost)]
        decreases leaf
      {
        StoredRoot(pool.Seen().view, leaf);
        OrderedRoot(leaf);
        ghost var s := pool.Seen();
        var isLeaf, child;
        page, isLeaf, child := VisitPage(current, key, leftMost, leaf);
        if page == null {
          assert Path(leaf, key, leftMost)[0] == leaf.id;
          return;
        }
        if isLeaf {
          LeafReached(leaf, key, leftMost);
          return;
        }
        ghost var c := ChildFor(leaf, key, leftMost);
        LookupEnds(leaf.children[c], key, leftMost);
        DescendKeepsLeaf(leaf, key, leftMost);
        BlockedLater(s.Full(), s.pins.Keys, leaf.id, Path(leaf.children[c], key, leftMost));
        if !leftMost {
          DescendKeepsRids(leaf, key, c);
        }
        leaf := leaf.children[c];
        current := child;
      }
    }

    /** The record ids of the run of equal keys that ends before `pos`. */
    static method RunBefore(page: Page, key: Int32, pos: nat, ghost entries: seq<Entry>)
      returns (result: seq<RID>, ghost lo: nat)
      requires LeafStored(page.data, entries) && pos <= |entries|
      ensures lo <= pos && result == RidsOf(entries[lo..pos])
      ensures forall k :: lo <= k < pos ==> entries[k].key == key
      ensures lo > 0 ==> entries[lo - 1].key != key
    {
      hide IntAt;
      var size := IntAt(page.data, 1);
      ghost var keys := KeysOf(entries);
      result := [];
      var i := pos - 1;
      while i >= 0
        invariant -1 <= i < pos
        invariant forall k :: i < k < pos ==> entries[k].key == key
        invariant result == RidsOf(entries[i + 1..pos])
      {
        assert keys[i] == entries[i].key;
        if IntAt(page.data, 2 + i) == key {
          var rid := RID(IntAt(page.data, 2 + size + i * 2), IntAt(page.data, 2 + size + i * 2 + 1));
          assert rid == entries[i].rid;
          result := [rid] + result;
        } else {
          break;
        }
        i := i - 1;
      }
      lo := i + 1;
    }

    /** The record ids of the run of equal keys that starts at `pos`, put behind those found before. */
    static method RunFrom(page: Page, key: Int32, pos: nat, before: seq<RID>, ghost entries: seq<Entry>)
      returns (result: seq<RID>, ghost hi: nat)
      requires LeafStored(page.data, entries) && pos <= |entries|
      ensures pos <= hi <= |entries| && result == before + RidsOf(entries[pos..hi])
      ensures forall k :: pos <= k < hi ==> entries[k].key == key
      ensures hi < |entries| ==> entries[hi].key != key
      ensures hi == pos <==> pos == |entries| || entries[pos].key != key
    {
      hide IntAt;
      var size := IntAt(page.data, 1);
      ghost var keys := KeysOf(entries);
      result := before;
      var i := pos;
      while i < size
        invariant pos <= i <= |entries|
        invariant forall k :: pos <= k < i ==> entries[k].key == key
        invariant result == before + RidsOf(entries[pos..i])
      {
        assert keys[i] == entries[i].key;
        if IntAt(page.data, 2 + i) == key {
          var rid := RID(IntAt(page.data, 2 + size + i * 2), IntAt(page.data, 2 + size + i * 2 + 1));
          assert rid == entries[i].rid;
          result := result + [rid];
        } else {
          break;
        }
        i := i + 1;
      }
      hi := i;
    }

    /** The record ids of a key in a leaf: the run from the upper bound on is empty. */
    static method CollectMatches(page: Page, key: Int32, pos: nat, ghost entries: seq<Entry>) returns (result: seq<RID>)
      requires LeafStored(page.data, entries) && Ascending(KeysOf(entries)) && UpperBound(KeysOf(entries), key, pos)
      ensures result == Matching(entries, key)
    {
      hide LeafStored, Matching;
      ghost var lo, hi;
      result, lo := RunBefore(page, key, pos, entries);
      RunIsAll(entries, key, lo, pos);
      result, hi := RunFrom(page, key, pos, result, entries);
      assert entries[pos..hi] == [];
    }

    static method ReadLeaf(page: Page, key: Int32, collect: bool, before: seq<RID>, ghost entries: seq<Entry>)
      returns (result: seq<RID>)
      requires LeafStored(page.data, entries) && Ascending(KeysOf(entries))
      ensures result == if collect then Matching(entries, key) else before
    {
      var pos := BinarySearch(page, key, KeysOf(entries));
      result := before;
      if collect {
        result := CollectMatches(page, key, pos, entries);
      }
    }

    /** All record ids of a key, in order; every pin taken is given back. */
    method GetValue(key: Int32, collect: bool, before: seq<RID>, ghost t: Tree) returns (found: bool, result: seq<RID>)
      requires rootPageId != -1 ==> Stores(t) && rootPageId == t.id
      modifies pool, pool.replacer, pool.disk`blocks, pool.PageSet()
      ensures rootPageId == -1 ==> !found && result == before
      ensures rootPageId != -1 ==> pool.Valid() && pool.Synced() && pool.Seen() == old(pool.Seen())
      ensures rootPageId != -1 ==>
                var blocked := Blocked(old(pool.Seen()).Full(), old(pool.Seen()).pins.Keys, Path(t, key, false));
                && result == (if blocked || !collect then before else Rids(t, key))
                && found == (!blocked && collect && Rids(t, key) != [])
    {
      hide BufferPoolManager.Valid, BufferPoolManager.Seen, BufferPoolManager.Unsaved, BufferPoolManager.Handles;
      hide BufferPoolManager.Placed, BufferPoolManager.Offered;
      hide BufferPoolManager.Model, BufferPoolManager.Object, BufferPoolManager.ViewLeft, BufferPoolManager.NextFrame;
      hide LaidOut, Ordered, LeafStored, Path, IsLeafPage, Blocked, Ascending, Matching, Leaves, LeafFor, NodeStored;
      result := before;
      if rootPageId == -1 {
        return false, result;
      }
      ghost var s := pool.Seen();
      var page;
      ghost var leaf;
      page, leaf := FindLeafPage(key, false, t);
      if page == null {
        return false, result;
      }
      StoredRoot(pool.Seen().view, leaf);
      OrderedRoot(leaf);
      result := ReadLeaf(page, key, collect, before, leaf.entries);
      LetGo(page.pageId, s);
      found := collect && result != [];
    }
  }
}
