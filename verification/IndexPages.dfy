/** The page layout the B+ tree reader expects, the trees it describes and what a lookup in them means. */
module IndexPages {
  import opened Bytes
  import opened Permutations
  import opened Records

  datatype Entry = Entry(key: Int32, rid: RID)

  /** Leaves hold entries; an inner node has one more child than separators. */
  datatype Tree = Leaf(id: int, entries: seq<Entry>) | Node(id: int, separators: seq<Int32>, children: seq<Tree>)

  /** A page read as an array of integers. */
  function IntAt(page: PageBytes, k: nat): Int32
    requires 4 * k + 4 <= PAGE_SIZE
  {
    ReadInt(page, 4 * k)
  }

  predicate IsLeafPage(page: PageBytes) {
    IntAt(page, 0) == 1
  }

  /** The keys of a page come after its kind and size. */
  ghost predicate KeysStored(page: PageBytes, keys: seq<Int32>) {
    && 4 * (2 + |keys|) <= PAGE_SIZE
    && IntAt(page, 1) == |keys|
    && forall i :: 0 <= i < |keys| ==> IntAt(page, 2 + i) == keys[i]
  }

  ghost function KeysOf(entries: seq<Entry>): (keys: seq<Int32>)
    ensures |keys| == |entries| && forall i :: 0 <= i < |entries| ==> keys[i] == entries[i].key
  {
    seq(|entries|, i requires 0 <= i < |entries| => entries[i].key)
  }

  ghost predicate LeafStored(page: PageBytes, entries: seq<Entry>) {
    && 4 * (2 + 3 * |entries|) <= PAGE_SIZE
    && IsLeafPage(page) && KeysStored(page, KeysOf(entries))
    && forall i {:trigger entries[i]} :: 0 <= i < |entries| ==>
         && IntAt(page, 2 + |entries| + i * 2) == entries[i].rid.pageId
         && IntAt(page, 2 + |entries| + i * 2 + 1) == entries[i].rid.slotNum
  }

  ghost predicate NodeStored(page: PageBytes, separators: seq<Int32>, children: seq<Tree>) {
    && |children| == |separators| + 1
    && 4 * (2 + |separators| + 1 + |children|) <= PAGE_SIZE
    && !IsLeafPage(page) && KeysStored(page, separators)
    && forall i :: 0 <= i < |children| ==> IntAt(page, 2 + |separators| + 1 + i) == children[i].id
  }

  /** A leaf in bytes: kind 1, the number of keys, the keys, then page id and slot of each record id. */
  lemma LeafBytes(page: PageBytes, entries: seq<Entry>)
    requires 8 + 12 * |entries| <= 4096
    ensures LeafStored(page, entries) <==>
            && ReadInt(page, 0) == 1 && ReadInt(page, 4) == |entries|
            && forall i {:trigger entries[i]} :: 0 <= i < |entries| ==>
                 && ReadInt(page, 8 + 4 * i) == entries[i].key
                 && ReadInt(page, 8 + 4 * |entries| + 8 * i) == entries[i].rid.pageId
                 && ReadInt(page, 8 + 4 * |entries| + 8 * i + 4) == entries[i].rid.slotNum
  {
    hide ReadInt;
    var n := |entries|;
    forall i {:trigger entries[i]} | 0 <= i < n
      ensures IntAt(page, 2 + i) == ReadInt(page, 8 + 4 * i)
      ensures IntAt(page, 2 + n + i * 2) == ReadInt(page, 8 + 4 * n + 8 * i)
      ensures IntAt(page, 2 + n + i * 2 + 1) == ReadInt(page, 8 + 4 * n + 8 * i + 4)
    {
      assert 4 * (2 + n + i * 2) == 8 + 4 * n + 8 * i;
    }
    assert KeysStored(page, KeysOf(entries)) ==>
             forall i {:trigger entries[i]} :: 0 <= i < n ==> IntAt(page, 2 + i) == KeysOf(entries)[i];
  }

  /** An inner node in bytes: another kind, the number of separators, the separators, an unused integer, the child ids. */
  lemma NodeBytes(page: PageBytes, separators: seq<Int32>, children: seq<Tree>)
    requires |children| == |separators| + 1 && 12 + 4 * |separators| + 4 * |children| <= 4096
    ensures NodeStored(page, separators, children) <==>
            && ReadInt(page, 0) != 1 && ReadInt(page, 4) == |separators|
            && (forall i :: 0 <= i < |separators| ==> ReadInt(page, 8 + 4 * i) == separators[i])
            && forall i :: 0 <= i < |children| ==> ReadInt(page, 12 + 4 * |separators| + 4 * i) == children[i].id
  {
    hide ReadInt;
    var n := |separators|;
    forall i {:trigger separators[i]} | 0 <= i < n ensures IntAt(page, 2 + i) == ReadInt(page, 8 + 4 * i) {
    }
    forall i {:trigger children[i]} | 0 <= i < |children|
      ensures IntAt(page, 2 + n + 1 + i) == ReadInt(page, 12 + 4 * n + 4 * i)
    {
    }
  }

  /** The pages of a store hold a tree. */
  ghost predicate LaidOut(view: map<int, PageBytes>, t: Tree)
    decreases t
  {
    t.id in view &&
    match t
    case Leaf(id, entries) => LeafStored(view[id], entries)
    case Node(id, separators, children) =>
      NodeStored(view[id], separators, children) && forall i :: 0 <= i < |children| ==> LaidOut(view, children[i])
  }

  /** What the root page of a stored tree holds. */
  ghost predicate RootStored(page: PageBytes, t: Tree) {
    match t
    case Leaf(_, entries) => LeafStored(page, entries)
    case Node(_, separators, children) => NodeStored(page, separators, children)
  }

  ghost predicate HasKey(t: Tree, key: Int32)
    decreases t
  {
    match t
    case Leaf(_, entries) => exists i :: 0 <= i < |entries| && entries[i].key == key
    case Node(_, _, children) => exists i :: 0 <= i < |children| && HasKey(children[i], key)
  }

  lemma StoredRoot(view: map<int, PageBytes>, t: Tree)
    requires LaidOut(view, t)
    ensures t.id in view && RootStored(view[t.id], t) && IsLeafPage(view[t.id]) == t.Leaf?
    ensures t.Node? ==> forall i :: 0 <= i < |t.children| ==> LaidOut(view, t.children[i])
  {
  }

  lemma OrderedRoot(t: Tree)
    requires Ordered(t)
    ensures t.Leaf? ==> Ascending(KeysOf(t.entries))
    ensures t.Node? ==> |t.children| == |t.separators| + 1 && Ascending(t.separators)
    ensures t.Node? ==> forall i :: 0 <= i < |t.children| ==> Ordered(t.children[i])
  {
  }

  /** Left subtree below the separator, right subtree from it on, everywhere in the tree. */
  ghost predicate Ordered(t: Tree)
    decreases t
  {
    match t
    case Leaf(_, entries) => Ascending(KeysOf(entries))
    case Node(_, separators, children) =>
      && |children| == |separators| + 1 && Ascending(separators)
      && (forall i :: 0 <= i < |children| ==> Ordered(children[i]))
      && (forall i, k :: 0 <= i < |separators| && HasKey(children[i], k) ==> k < separators[i])
      && (forall i, k :: 0 < i < |children| && HasKey(children[i], k) ==> separators[i - 1] <= k)
  }

  ghost function Matching(entries: seq<Entry>, key: Int32): seq<RID> {
    if entries == [] then []
    else Matching(entries[..|entries| - 1], key)
         + if entries[|entries| - 1].key == key then [entries[|entries| - 1].rid] else []
  }

  /** All record ids stored under a key anywhere in the tree, from left to right. */
  ghost function Rids(t: Tree, key: Int32): seq<RID>
    decreases t, if t.Node? then |t.children| + 1 else 0
  {
    match t
    case Leaf(_, entries) => Matching(entries, key)
    case Node(_, _, children) => AllRids(t, |children|, key)
  }

  /** Those in the first `n` children of a node. */
  ghost function AllRids(t: Tree, n: nat, key: Int32): seq<RID>
    requires t.Node? && n <= |t.children|
    decreases t, n
  {
    if n == 0 then [] else AllRids(t, n - 1, key) + Rids(t.children[n - 1], key)
  }

  /** The first position whose key exceeds `key`. */
  ghost predicate UpperBound(keys: seq<Int32>, key: Int32, pos: nat) {
    && pos <= |keys|
    && (forall i :: 0 <= i < pos ==> keys[i] <= key)
    && (forall i :: pos <= i < |keys| ==> key < keys[i])
  }

  ghost function UpperPosition(keys: seq<Int32>, key: Int32): (pos: nat)
    ensures pos <= |keys|
  {
    if keys == [] || key < keys[0] then 0 else 1 + UpperPosition(keys[1..], key)
  }

  lemma {:induction false} UpperBoundUnique(keys: seq<Int32>, key: Int32, pos: nat)
    requires UpperBound(keys, key, pos)
    ensures pos == UpperPosition(keys, key)
    decreases |keys|
  {
    if keys != [] && !(key < keys[0]) {
      assert forall i :: 0 <= i < |keys[1..]| ==> keys[1..][i] == keys[i + 1];
      UpperBoundUnique(keys[1..], key, pos - 1);
    }
  }

  /** The ids of the pages a lookup passes, from the root to the leaf. */
  ghost function Path(t: Tree, key: Int32, leftMost: bool): seq<int>
    decreases t
  {
    match t
    case Leaf(id, _) => [id]
    case Node(id, separators, children) =>
      var c := if leftMost then 0 else UpperPosition(separators, key);
      if c < |children| then [id] + Path(children[c], key, leftMost) else [id]
  }

  ghost function RidsOf(entries: seq<Entry>): (rids: seq<RID>)
    ensures |rids| == |entries| && forall i :: 0 <= i < |entries| ==> rids[i] == entries[i].rid
  {
    seq(|entries|, i requires 0 <= i < |entries| => entries[i].rid)
  }

  lemma {:induction false} MatchingRange(entries: seq<Entry>, key: Int32, lo: nat, hi: nat)
    requires lo <= hi <= |entries|
    requires forall i :: 0 <= i < |entries| ==> (entries[i].key == key <==> lo <= i < hi)
    ensures Matching(entries, key) == RidsOf(entries[lo..hi])
    decreases |entries|
  {
    if entries != [] {
      var n := |entries| - 1;
      var lo', hi' := if lo < n then lo else n, if hi < n then hi else n;
      MatchingRange(entries[..n], key, lo', hi');
      assert entries[..n][lo'..hi'] == entries[lo'..hi'];
      if lo <= n < hi {
        assert lo' == lo && hi' == n && hi == n + 1;
        assert RidsOf(entries[lo..hi]) == RidsOf(entries[lo..n]) + [entries[n].rid];
      } else {
        assert entries[lo'..hi'] == entries[lo..hi] && Matching(entries, key) == Matching(entries[..n], key) + [];
      }
    }
  }

  /** In a leaf in order the run of a key that ends at the upper bound holds all its record ids. */
  lemma RunIsAll(entries: seq<Entry>, key: Int32, lo: nat, pos: nat)
    requires Ascending(KeysOf(entries)) && UpperBound(KeysOf(entries), key, pos) && lo <= pos
    requires forall k :: lo <= k < pos ==> entries[k].key == key
    requires lo > 0 ==> entries[lo - 1].key != key
    ensures Matching(entries, key) == RidsOf(entries[lo..pos])
    ensures forall k :: pos <= k < |entries| ==> entries[k].key != key
  {
    var keys := KeysOf(entries);
    forall k | 0 <= k < |entries| ensures entries[k].key == key <==> lo <= k < pos {
      assert keys[k] == entries[k].key;
      if k < lo {
        assert keys[k] <= keys[lo - 1] <= key && keys[lo - 1] != key;
      }
    }
    MatchingRange(entries, key, lo, pos);
  }

  lemma {:induction false} NoMatch(entries: seq<Entry>, key: Int32)
    requires forall i :: 0 <= i < |entries| ==> entries[i].key != key
    ensures Matching(entries, key) == []
    decreases |entries|
  {
    if entries != [] {
      NoMatch(entries[..|entries| - 1], key);
    }
  }

  /** A lookup down `path` is stopped by a full pool at the first page nobody has pinned. */
  ghost predicate Blocked(full: bool, pinned: set<int>, path: seq<int>) {
    full && exists i :: 0 <= i < |path| && path[i] !in pinned
  }

  lemma BlockedLater(full: bool, pinned: set<int>, first: int, rest: seq<int>)
    requires !(full && first !in pinned)
    ensures Blocked(full, pinned, [first] + rest) == Blocked(full, pinned, rest)
  {
    if Blocked(full, pinned, rest) {
      var i :| 0 <= i < |rest| && rest[i] !in pinned;
      assert ([first] + rest)[i + 1] !in pinned;
    }
  }

  lemma {:induction false} NoRids(t: Tree, key: Int32)
    requires !HasKey(t, key)
    ensures Rids(t, key) == []
    decreases t, if t.Node? then |t.children| + 1 else 0
  {
    match t
    case Leaf(_, entries) => NoMatch(entries, key);
    case Node(_, _, children) => NoRidsBefore(t, |children|, key);
  }

  lemma {:induction false} NoRidsBefore(t: Tree, n: nat, key: Int32)
    requires t.Node? && n <= |t.children| && forall i :: 0 <= i < n ==> !HasKey(t.children[i], key)
    ensures AllRids(t, n, key) == []
    decreases t, n
  {
    if n > 0 {
      NoRidsBefore(t, n - 1, key);
      NoRids(t.children[n - 1], key);
    }
  }

  lemma {:induction false} RidsFromOne(t: Tree, c: nat, n: nat, key: Int32)
    requires t.Node? && c < n <= |t.children|
    requires forall i :: 0 <= i < n && i != c ==> !HasKey(t.children[i], key)
    ensures AllRids(t, n, key) == Rids(t.children[c], key)
    decreases n
  {
    if n == c + 1 {
      NoRidsBefore(t, c, key);
    } else {
      RidsFromOne(t, c, n - 1, key);
      NoRids(t.children[n - 1], key);
    }
  }

  /** Only the child at the upper bound can hold the key. */
  lemma OnlyChild(t: Tree, key: Int32, c: nat)
    requires t.Node? && Ordered(t) && UpperBound(t.separators, key, c)
    ensures c < |t.children| && forall i :: 0 <= i < |t.children| && i != c ==> !HasKey(t.children[i], key)
  {
    forall i | 0 <= i < |t.children| && i != c ensures !HasKey(t.children[i], key) {
      if i < c {
        assert t.separators[i] <= key;
      } else {
        assert key < t.separators[i - 1];
      }
    }
  }

  /** So the descent loses nothing. */
  lemma DescendKeepsRids(t: Tree, key: Int32, c: nat)
    requires t.Node? && Ordered(t) && UpperBound(t.separators, key, c)
    ensures c < |t.children| && Rids(t, key) == Rids(t.children[c], key)
  {
    OnlyChild(t, key, c);
    RidsFromOne(t, c, |t.children|, key);
  }

  // ---- the leaf a lookup reaches ----

  /** The leaves of a tree from left to right. */
  ghost function Leaves(t: Tree): seq<Tree>
    decreases t, if t.Node? then |t.children| + 1 else 0
  {
    match t
    case Leaf(_, _) => [t]
    case Node(_, _, children) => LeavesBefore(t, |children|)
  }

  /** Those of the first `n` children of a node. */
  ghost function LeavesBefore(t: Tree, n: nat): seq<Tree>
    requires t.Node? && n <= |t.children|
    decreases t, n
  {
    if n == 0 then [] else LeavesBefore(t, n - 1) + Leaves(t.children[n - 1])
  }

  /** The child a lookup goes to. */
  ghost function ChildFor(t: Tree, key: Int32, leftMost: bool): nat
    requires t.Node?
  {
    if leftMost then 0 else UpperPosition(t.separators, key)
  }

  /** Which of the leaves a lookup reaches. */
  ghost function LeafFor(t: Tree, key: Int32, leftMost: bool): nat
    decreases t
  {
    match t
    case Leaf(_, _) => 0
    case Node(_, _, children) =>
      var c := ChildFor(t, key, leftMost);
      if c < |children| then |LeavesBefore(t, c)| + LeafFor(children[c], key, leftMost) else 0
  }

  lemma {:induction false} LeavesAt(t: Tree, c: nat, n: nat, k: nat)
    requires t.Node? && c < n <= |t.children| && k < |Leaves(t.children[c])|
    ensures |LeavesBefore(t, c)| + k < |LeavesBefore(t, n)|
    ensures LeavesBefore(t, n)[|LeavesBefore(t, c)| + k] == Leaves(t.children[c])[k]
    decreases n
  {
    if n > c + 1 {
      LeavesAt(t, c, n - 1, k);
    }
  }

  lemma {:induction false} ChildOfLeaf(t: Tree, n: nat, i: nat) returns (c: nat, k: nat)
    requires t.Node? && n <= |t.children| && i < |LeavesBefore(t, n)|
    ensures c < n && k < |Leaves(t.children[c])| && i == |LeavesBefore(t, c)| + k
    ensures LeavesBefore(t, n)[i] == Leaves(t.children[c])[k]
    decreases n
  {
    if i < |LeavesBefore(t, n - 1)| {
      c, k := ChildOfLeaf(t, n - 1, i);
    } else {
      c, k := n - 1, i - |LeavesBefore(t, n - 1)|;
    }
  }

  /** One step of the descent, seen on the leaves and on the path. */
  lemma DescendKeepsLeaf(t: Tree, key: Int32, leftMost: bool)
    requires t.Node? && ChildFor(t, key, leftMost) < |t.children|
    requires var next := t.children[ChildFor(t, key, leftMost)]; LeafFor(next, key, leftMost) < |Leaves(next)|
    ensures var next := t.children[ChildFor(t, key, leftMost)];
            && LeafFor(t, key, leftMost) < |Leaves(t)|
            && Leaves(t)[LeafFor(t, key, leftMost)] == Leaves(next)[LeafFor(next, key, leftMost)]
            && Path(t, key, leftMost) == [t.id] + Path(next, key, leftMost)
  {
    var c := ChildFor(t, key, leftMost);
    LeavesAt(t, c, |t.children|, LeafFor(t.children[c], key, leftMost));
  }

  /** A lookup in an ordered tree ends at one of its leaves, the last page of its path; the leftmost one is the first. */
  lemma {:induction false} LookupEnds(t: Tree, key: Int32, leftMost: bool)
    requires Ordered(t)
    ensures LeafFor(t, key, leftMost) < |Leaves(t)|
    ensures Leaves(t)[LeafFor(t, key, leftMost)].Leaf?
    ensures var path := Path(t, key, leftMost); path != [] && path[|path| - 1] == Leaves(t)[LeafFor(t, key, leftMost)].id
    ensures leftMost ==> LeafFor(t, key, leftMost) == 0
    decreases t
  {
    if t.Node? {
      var next := t.children[ChildFor(t, key, leftMost)];
      LookupEnds(next, key, leftMost);
      DescendKeepsLeaf(t, key, leftMost);
    }
  }

  lemma LeafReached(t: Tree, key: Int32, leftMost: bool)
    requires t.Leaf?
    ensures Path(t, key, leftMost) == [t.id] && Leaves(t) == [t] && LeafFor(t, key, leftMost) == 0
  {
  }

  lemma {:induction false} KeyBelow(t: Tree, key: Int32, i: nat)
    requires i < |Leaves(t)| && HasKey(Leaves(t)[i], key)
    ensures HasKey(t, key)
    decreases t
  {
    if t.Node? {
      var c, k := ChildOfLeaf(t, |t.children|, i);
      KeyBelow(t.children[c], key, k);
    }
  }

  /** No other leaf of an ordered tree than the one a lookup reaches has the key. */
  lemma {:induction false} OnlyLeaf(t: Tree, key: Int32, i: nat)
    requires Ordered(t) && i < |Leaves(t)| && HasKey(Leaves(t)[i], key)
    ensures i == LeafFor(t, key, false)
    decreases t
  {
    if t.Node? {
      var c, k := ChildOfLeaf(t, |t.children|, i);
      KeyBelow(t.children[c], key, k);
      UpperPositionBounds(t.separators, key);
      OnlyChild(t, key, ChildFor(t, key, false));
      OnlyLeaf(t.children[c], key, k);
    }
  }

  /** And that leaf has it whenever the tree does. */
  lemma {:induction false} LeafHasKey(t: Tree, key: Int32)
    requires Ordered(t) && HasKey(t, key)
    ensures LeafFor(t, key, false) < |Leaves(t)| && HasKey(Leaves(t)[LeafFor(t, key, false)], key)
    decreases t
  {
    if t.Node? {
      UpperPositionBounds(t.separators, key);
      OnlyChild(t, key, ChildFor(t, key, false));
      LeafHasKey(t.children[ChildFor(t, key, false)], key);
      DescendKeepsLeaf(t, key, false);
    }
  }

  lemma {:induction false} UpperPositionBounds(keys: seq<Int32>, key: Int32)
    requires Ascending(keys)
    ensures UpperBound(keys, key, UpperPosition(keys, key))
    decreases |keys|
  {
    if keys != [] && !(key < keys[0]) {
      UpperPositionBounds(keys[1..], key);
      var pos := UpperPosition(keys[1..], key);
      forall i | 0 <= i < |keys| ensures if i < pos + 1 then keys[i] <= key else key < keys[i] {
        assert i > 0 ==> keys[i] == keys[1..][i - 1];
      }
    }
  }
}
