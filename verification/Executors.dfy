/** The Volcano operators: objects that produce their payloads one `Next` at a time. */
module Executors {
  import opened Bytes
  import opened Permutations
  import opened Wrappers
  import opened Plans
  import opened LayerManagement
  import HashSets

  /** The operators behind the common Init/Next interface. */
  datatype Executor =
    | Scanning(scan: SeqScanExecutor)
    | Merging(merge: MergeExecutor)
    | Joining(join: JoinExecutor)
    | Sorting(sorter: SortExecutor)
    | Aggregating(aggregate: AggregationExecutor)
  {
    ghost function Obj(): object {
      match this
      case Scanning(e) => e
      case Merging(e) => e
      case Joining(e) => e
      case Sorting(e) => e
      case Aggregating(e) => e
    }

    ghost function Repr(): set<object> {
      match this
      case Scanning(e) => e.Repr
      case Merging(e) => e.Repr
      case Joining(e) => e.Repr
      case Sorting(e) => e.Repr
      case Aggregating(e) => e.Repr
    }

    /** The layer managers that scans below ask; nobody changes them while the tree runs. */
    ghost function Shared(): set<object> {
      match this
      case Scanning(e) => e.Shared
      case Merging(e) => e.Shared
      case Joining(e) => e.Shared
      case Sorting(e) => e.Shared
      case Aggregating(e) => e.Shared
    }

    ghost function Tree(): Plan {
      match this
      case Scanning(e) => e.plan
      case Merging(e) => e.plan
      case Joining(e) => e.plan
      case Sorting(e) => e.plan
      case Aggregating(e) => e.plan
    }

    ghost function SortUsed(): Sorter {
      match this
      case Scanning(e) => e.sort
      case Merging(e) => e.sort
      case Joining(e) => e.sort
      case Sorting(e) => e.sort
      case Aggregating(e) => e.sort
    }

    /** All the payloads the tree below stands for. */
    ghost function All(): seq<Payload> {
      Denote(Tree(), SortUsed())
    }

    ghost predicate Valid()
      reads Repr(), Shared()
      decreases Repr(), 1
    {
      && Obj() in Repr()
      && match this
         case Scanning(e) => e.Valid()
         case Merging(e) => e.Valid()
         case Joining(e) => e.Valid()
         case Sorting(e) => e.Valid()
         case Aggregating(e) => e.Valid()
    }

    /** The payloads still to come. */
    ghost function Rest(): seq<Payload>
      requires Valid()
      reads Repr(), Shared()
      decreases Repr(), 1
    {
      match this
      case Scanning(e) => e.Rest()
      case Merging(e) => e.Rest()
      case Joining(e) => e.Rest()
      case Sorting(e) => e.Rest()
      case Aggregating(e) => e.Rest()
    }

    method Init()
      requires Valid()
      modifies Repr()
      ensures Valid() && Rest() == All()
      decreases Tree(), 4
    {
      match this
      case Scanning(e) => e.Init();
      case Merging(e) => e.Init();
      case Joining(e) => e.Init();
      case Sorting(e) => e.Init();
      case Aggregating(e) => e.Init();
    }

    method Next() returns (ok: bool, tuple: Payload)
      requires Valid()
      modifies Repr()
      ensures Valid() && ok == (old(Rest()) != [])
      ensures ok ==> old(Rest()) == [tuple] + Rest()
      ensures !ok ==> Rest() == []
      decreases Tree(), 4
    {
      match this
      case Scanning(e) => ok, tuple := e.Next();
      case Merging(e) => ok, tuple := e.Next();
      case Joining(e) => ok, tuple := e.Next();
      case Sorting(e) => ok, tuple := e.Next();
      case Aggregating(e) => ok, tuple := e.Next();
    }
  }

  /** Two trees that share no operator and whose layer managers the other does not own. */
  ghost predicate Apart(a: Executor, b: Executor) {
    a.Repr() !! b.Repr() && a.Shared() !! b.Repr() && b.Shared() !! a.Repr()
  }

  ghost function ReprOf(e: Option<Executor>): set<object> {
    if e.Some? then e.value.Repr() else {}
  }

  ghost function SharedOf(e: Option<Executor>): set<object> {
    if e.Some? then e.value.Shared() else {}
  }

  class SeqScanExecutor {
    const rows: seq<Row>
    const layerManager: LayerManager?
    const target: Layer
    var iter: nat
    var initialized: bool
    ghost const plan: Plan
    ghost const sort: Sorter
    ghost const Repr: set<object>
    ghost const Shared: set<object>

    /** The hot set of the layer manager, if the scan has one. */
    ghost function HotPages(): Option<set<int>>
      reads layerManager
    {
      if layerManager == null then None else Some(layerManager.hotPageIds)
    }

    ghost predicate Valid()
      reads this, Shared
      decreases Repr, 0
    {
      && this in Repr && Shared !! Repr && iter <= |rows| && initialized
      && (layerManager != null ==> layerManager in Shared)
      && plan == Scan(rows, HotPages(), target)
    }

    ghost function Rest(): seq<Payload>
      requires Valid()
      reads this, Shared
      decreases Repr, 0
    {
      Scanned(rows[iter..], HotPages(), target)
    }

    constructor (rows: seq<Row>, layerManager: LayerManager?, target: Layer, ghost sort: Sorter)
      ensures Valid() && fresh(Repr) && this.layerManager == layerManager && this.sort == sort
      ensures plan == Scan(rows, HotPages(), target) && Rest() == Denote(plan, sort)
      ensures Shared == if layerManager == null then {} else {layerManager}
    {
      this.rows, this.layerManager, this.target := rows, layerManager, target;
      iter, initialized := 0, true;
      plan := Scan(rows, if layerManager == null then None else Some(layerManager.hotPageIds), target);
      this.sort, Repr := sort, {this};
      Shared := if layerManager == null then {} else {layerManager};
    }

    method Init()
      requires Valid()
      modifies this
      ensures Valid() && Rest() == Denote(plan, sort)
      decreases plan, 0
    {
      iter, initialized := 0, true;
    }

    method Next() returns (ok: bool, tuple: Payload)
      requires Valid()
      modifies this
      ensures Valid() && ok == (old(Rest()) != [])
      ensures ok ==> old(Rest()) == [tuple] + Rest()
      ensures !ok ==> Rest() == []
      decreases plan, 1
    {
      tuple := [];
      while iter != |rows|
        invariant Valid() && Rest() == old(Rest())
        decreases |rows| - iter
      {
        var row := rows[iter];
        assert rows[iter..][1..] == rows[iter + 1..];
        tuple := row.payload;
        iter := iter + 1;
        if layerManager != null && target != BOTH {
          var pageHot := layerManager.IsPageHot(row.pageId);
          if target == HOT && !pageHot {
            continue;
          }
          if target == COLD && pageHot {
            continue;
          }
        }
        return true, tuple;
      }
      ok := false;
    }
  }

  class MergeExecutor {
    const hot: Option<Executor>
    const cold: Option<Executor>
    var useHot: bool
    var hotDone: bool
    var coldDone: bool
    var initialized: bool
    ghost const plan: Plan
    ghost const sort: Sorter
    ghost const Repr: set<object>
    ghost const Shared: set<object>

    ghost predicate Owns(child: Executor) {
      child.Repr() <= Repr && this !in child.Repr() && child.Shared() <= Shared && child.SortUsed() == sort
    }

    ghost predicate Valid()
      reads this, Repr, Shared
      decreases Repr, 0
    {
      && this in Repr
      && plan == Plan.Merge(if hot.Some? then Some(hot.value.Tree()) else None,
                            if cold.Some? then Some(cold.value.Tree()) else None)
      && (hot.Some? ==> Owns(hot.value) && hot.value.Valid())
      && (cold.Some? ==> Owns(cold.value) && cold.value.Valid())
      && (hot.Some? && cold.Some? ==> hot.value.Repr() !! cold.value.Repr()) && Shared !! Repr
    }

    ghost function Rest(): seq<Payload>
      requires Valid()
      reads this, Repr, Shared
      decreases Repr, 0
    {
      if !initialized then Denote(plan, sort)
      else (if useHot && hot.Some? then hot.value.Rest() else []) + (if cold.Some? then cold.value.Rest() else [])
    }

    constructor (hot: Option<Executor>, cold: Option<Executor>, ghost sort: Sorter)
      requires hot.Some? ==> hot.value.Valid() && hot.value.SortUsed() == sort
      requires cold.Some? ==> cold.value.Valid() && cold.value.SortUsed() == sort
      requires hot.Some? && cold.Some? ==> Apart(hot.value, cold.value)
      ensures Valid() && this.hot == hot && this.cold == cold && this.sort == sort
      ensures Repr == {this} + ReprOf(hot) + ReprOf(cold) && Shared == SharedOf(hot) + SharedOf(cold)
      ensures Rest() == Denote(plan, sort)
    {
      this.hot, this.cold := hot, cold;
      useHot, hotDone, coldDone, initialized := true, false, false, false;
      plan := Plan.Merge(if hot.Some? then Some(hot.value.Tree()) else None,
                         if cold.Some? then Some(cold.value.Tree()) else None);
      this.sort, Repr := sort, {this} + ReprOf(hot) + ReprOf(cold);
      Shared := SharedOf(hot) + SharedOf(cold);
    }

    method Init()
      requires Valid()
      modifies Repr
      ensures Valid() && initialized && Rest() == Denote(plan, sort)
      decreases plan, 0
    {
      hide Executor.Valid, Executor.Rest, Executor.Repr, Executor.Shared, Executor.Tree, Executor.SortUsed, Denote;
      DenoteMerge(plan.hot, plan.cold, sort);
      if hot.Some? {
        hot.value.Init();
      }
      if cold.Some? {
        cold.value.Init();
      }
      useHot, hotDone, coldDone, initialized := true, false, false, true;
    }

    method Next() returns (ok: bool, tuple: Payload)
      requires Valid()
      modifies Repr
      ensures Valid() && ok == (old(Rest()) != [])
      ensures ok ==> old(Rest()) == [tuple] + Rest()
      ensures !ok ==> Rest() == []
      decreases plan, 2
    {
      hide Executor.Valid, Executor.Rest, Executor.Repr, Executor.Shared, Executor.Tree, Executor.SortUsed, Denote;
      if !initialized {
        Init();
      }
      ok, tuple := Advance();
    }

    /** First the hot input, then the cold one. */
    method Advance() returns (ok: bool, tuple: Payload)
      requires Valid() && initialized
      modifies Repr
      ensures Valid() && ok == (old(Rest()) != [])
      ensures ok ==> old(Rest()) == [tuple] + Rest()
      ensures !ok ==> Rest() == []
      decreases plan, 1
    {
      hide Executor.Valid, Executor.Rest, Executor.Repr, Executor.Shared, Executor.Tree, Executor.SortUsed, Denote;
      tuple := [];
      if useHot && hot.Some? {
        ok, tuple := hot.value.Next();
        if ok {
          return;
        }
        hotDone, useHot := true, false;
      }
      if cold.Some? {
        ok, tuple := cold.value.Next();
        if ok {
          return;
        }
        coldDone := true;
      }
      ok := false;
    }
  }

  class JoinExecutor {
    const left: Executor
    const right: Executor
    var leftCurrent: Payload
    var leftHasCurrent: bool
    var initialized: bool
    ghost const plan: Plan
    ghost const sort: Sorter
    ghost const Repr: set<object>
    ghost const Shared: set<object>

    ghost predicate Owns(child: Executor) {
      child.Repr() <= Repr && this !in child.Repr() && child.Shared() <= Shared && child.SortUsed() == sort
    }

    ghost predicate Valid()
      reads this, Repr, Shared
      decreases Repr, 0
    {
      && this in Repr && plan == Plan.Join(left.Tree(), right.Tree())
      && Owns(left) && left.Valid() && Owns(right) && right.Valid() && left.Repr() !! right.Repr() && Shared !! Repr
    }

    ghost function Rest(): seq<Payload>
      requires Valid()
      reads this, Repr, Shared
      decreases Repr, 0
    {
      if !initialized then Denote(plan, sort)
      else if !leftHasCurrent then []
      else RowJoin(leftCurrent, right.Rest()) + CrossJoin(left.Rest(), right.All())
    }

    constructor (left: Executor, right: Executor, ghost sort: Sorter)
      requires left.Valid() && right.Valid() && Apart(left, right)
      requires left.SortUsed() == sort && right.SortUsed() == sort
      ensures Valid() && this.left == left && this.right == right && this.sort == sort
      ensures Repr == {this} + left.Repr() + right.Repr() && Shared == left.Shared() + right.Shared()
      ensures Rest() == Denote(plan, sort)
    {
      this.left, this.right := left, right;
      leftCurrent, leftHasCurrent, initialized := [], false, false;
      plan, this.sort, Repr := Plan.Join(left.Tree(), right.Tree()), sort, {this} + left.Repr() + right.Repr();
      Shared := left.Shared() + right.Shared();
    }

    method NextLeft()
      requires Valid()
      modifies Repr
      ensures Valid() && initialized == old(initialized) && right.Rest() == old(right.Rest())
      ensures leftHasCurrent == (old(left.Rest()) != [])
      ensures leftHasCurrent ==> old(left.Rest()) == [leftCurrent] + left.Rest()
      ensures !leftHasCurrent ==> left.Rest() == []
      decreases plan, 0
    {
      hide Executor.Valid, Executor.Rest, Executor.Repr, Executor.Shared, Executor.Tree, Executor.SortUsed, Denote;
      leftHasCurrent, leftCurrent := left.Next();
    }

    method NextRight() returns (more: bool, tuple: Payload)
      requires Valid()
      modifies right.Repr()
      ensures Valid() && left.Rest() == old(left.Rest())
      ensures leftCurrent == old(leftCurrent) && leftHasCurrent == old(leftHasCurrent) && initialized == old(initialized)
      ensures more == (old(right.Rest()) != []) && (!more ==> right.Rest() == [])
      ensures more ==> old(right.Rest()) == [tuple] + right.Rest()
      decreases plan, 0
    {
      hide Executor.Valid, Executor.Rest, Executor.Repr, Executor.Shared, Executor.Tree, Executor.SortUsed, Denote;
      more, tuple := right.Next();
    }

    method RewindRight()
      requires Valid()
      modifies right.Repr()
      ensures Valid() && left.Rest() == old(left.Rest()) && right.Rest() == right.All()
      ensures leftCurrent == old(leftCurrent) && leftHasCurrent == old(leftHasCurrent) && initialized == old(initialized)
      decreases plan, 0
    {
      hide Executor.Valid, Executor.Rest, Executor.Repr, Executor.Shared, Executor.Tree, Executor.SortUsed, Denote;
      right.Init();
    }

    method Init()
      requires Valid()
      modifies Repr
      ensures Valid() && initialized && Rest() == Denote(plan, sort)
      decreases plan, 1
    {
      hide Executor.Valid, Executor.Rest, Executor.Repr, Executor.Shared, Executor.Tree, Executor.SortUsed, RowJoin;
      left.Init();
      RewindRight();
      NextLeft();
      initialized := true;
    }

    method Next() returns (ok: bool, tuple: Payload)
      requires Valid()
      modifies Repr
      ensures Valid() && ok == (old(Rest()) != [])
      ensures ok ==> old(Rest()) == [tuple] + Rest()
      ensures !ok ==> Rest() == []
      decreases plan, 3
    {
      hide Executor.Valid, Executor.Rest, Executor.Repr, Executor.Shared, Executor.Tree, Executor.SortUsed, Denote;
      if !initialized {
        Init();
      }
      ok, tuple := Advance();
    }

    /** Both rows in one buffer, the right one cut where the buffer is full. */
    method Fill(rightTuple: Payload) returns (tuple: Payload)
      ensures tuple == Combine(leftCurrent, rightTuple)
    {
      if |leftCurrent| + |rightTuple| <= MAX_TUPLE {
        tuple := leftCurrent + rightTuple;
      } else {
        var copyRight := if MAX_TUPLE > |leftCurrent| then MAX_TUPLE - |leftCurrent| else 0;
        tuple := leftCurrent + rightTuple[..copyRight];
      }
    }

    /** The next left row, from the start of the right input. */
    method AdvanceLeft()
      requires Valid() && initialized && leftHasCurrent && right.Rest() == []
      modifies Repr
      ensures Valid() && initialized && Rest() == old(Rest())
      ensures leftHasCurrent ==> |left.Rest()| < |old(left.Rest())|
      decreases plan, 1
    {
      hide Executor.Valid, Executor.Rest, Executor.Repr, Executor.Shared, Executor.Tree, Executor.SortUsed, Denote, RowJoin, CrossJoin;
      ghost var l, ls, rs := leftCurrent, left.Rest(), right.All();
      JoinAdvance(l, ls, rs);
      JoinNone(rs);
      RewindRight();
      NextLeft();
      JoinAdvance(leftCurrent, left.Rest(), rs);
    }

    /** For each left row every right row; the right input is rewound before the next left row. */
    method Advance() returns (ok: bool, tuple: Payload)
      requires Valid() && initialized
      modifies Repr
      ensures Valid() && ok == (old(Rest()) != [])
      ensures ok ==> old(Rest()) == [tuple] + Rest()
      ensures !ok ==> Rest() == []
      decreases plan, 2
    {
      hide Executor.Valid, Executor.Rest, Executor.Repr, Executor.Shared, Executor.Tree, Executor.SortUsed, Denote, RowJoin, CrossJoin;
      tuple := [];
      while leftHasCurrent
        invariant Valid() && initialized && Rest() == old(Rest())
        decreases leftHasCurrent, |left.Rest()|
      {
        ghost var ls, rs := left.Rest(), right.All();
        var more, rightTuple := NextRight();
        if more {
          JoinStep(leftCurrent, rightTuple, right.Rest(), CrossJoin(ls, rs));
          tuple := Fill(rightTuple);
          return true, tuple;
        }
        AdvanceLeft();
      }
      ok := false;
    }
  }

  class SortExecutor {
    const child: Executor
    const offset: nat
    const sort: Sorter
    var sorted: seq<Payload>
    var cursor: nat
    ghost const plan: Plan
    ghost const Repr: set<object>
    ghost const Shared: set<object>

    ghost predicate Valid()
      reads this, Repr, Shared
      decreases Repr, 0
    {
      && this in Repr && plan == Plan.Sort(child.Tree(), offset)
      && child.Repr() <= Repr && this !in child.Repr() && child.SortUsed() == sort
      && child.Shared() == Shared && Shared !! Repr && child.Valid()
      && cursor <= |sorted|
    }

    ghost function Rest(): seq<Payload>
      requires Valid()
      reads this, Repr, Shared
      decreases Repr, 0
    {
      sorted[cursor..]
    }

    /** A sort that was never initialized has nothing to give. */
    constructor (child: Executor, offset: nat, sort: Sorter)
      requires child.Valid() && child.SortUsed() == sort
      ensures Valid() && this.child == child && this.offset == offset && this.sort == sort
      ensures Repr == {this} + child.Repr() && Shared == child.Shared() && Rest() == []
    {
      this.child, this.offset, this.sort := child, offset, sort;
      sorted, cursor := [], 0;
      plan, Repr, Shared := Plan.Sort(child.Tree(), offset), {this} + child.Repr(), child.Shared();
    }

    /** Rewinds the child and forgets every row. */
    method Start()
      requires Valid()
      modifies Repr
      ensures Valid() && sorted == [] && cursor == 0 && child.Rest() == child.All()
      decreases plan, 0
    {
      hide Executor.Valid, Executor.Rest, Executor.Repr, Executor.Shared, Executor.Tree, Executor.SortUsed, Denote;
      child.Init();
      sorted, cursor := [], 0;
    }

    method NextInput() returns (more: bool, t: Payload)
      requires Valid()
      modifies child.Repr()
      ensures Valid() && sorted == old(sorted) && cursor == old(cursor)
      ensures more == (old(child.Rest()) != []) && (more ==> old(child.Rest()) == [t] + child.Rest())
      decreases plan, 0
    {
      hide Executor.Valid, Executor.Rest, Executor.Repr, Executor.Shared, Executor.Tree, Executor.SortUsed, Denote;
      more, t := child.Next();
    }

    method Keep(t: Payload)
      requires Valid()
      modifies this`sorted
      ensures Valid() && sorted == old(sorted) + [t] && child.Rest() == old(child.Rest())
    {
      hide Executor.Valid, Executor.Rest, Executor.Repr, Executor.Shared, Executor.Tree, Executor.SortUsed, Denote;
      sorted := sorted + [t];
    }

    method Finish()
      requires Valid() && sorted == child.All()
      modifies this`sorted, this`cursor
      ensures Valid() && Rest() == Denote(plan, sort)
    {
      hide Executor.Valid, Executor.Rest, Executor.Repr, Executor.Shared, Executor.Tree, Executor.SortUsed, Denote;
      DenoteOver(plan.child, sort, COUNT, offset);
      sorted := sort(sorted, offset);
      cursor := 0;
    }

    method Init()
      requires Valid()
      modifies Repr
      ensures Valid() && Rest() == Denote(plan, sort)
      decreases plan, 1
    {
      hide Executor.Valid, Executor.Rest, Executor.Repr, Executor.Shared, Executor.Tree, Executor.SortUsed, Denote;
      Start();
      var more, t := NextInput();
      while more
        invariant Valid() && cursor == 0
        invariant more ==> sorted + [t] + child.Rest() == child.All()
        invariant !more ==> sorted == child.All()
        decreases more, |child.Rest()|
      {
        Keep(t);
        more, t := NextInput();
      }
      Finish();
    }

    method Next() returns (ok: bool, tuple: Payload)
      requires Valid()
      modifies this
      ensures Valid() && ok == (old(Rest()) != [])
      ensures ok ==> old(Rest()) == [tuple] + Rest()
      ensures !ok ==> Rest() == []
      decreases plan, 2
    {
      if cursor >= |sorted| {
        return false, [];
      }
      tuple := sorted[cursor];
      cursor := cursor + 1;
      ok := true;
    }
  }

  class AggregationExecutor {
    const child: Executor
    const kind: AggregationType
    const offset: nat
    var done: bool
    var initialized: bool
    var count: int
    var sum: int
    var minVal: Int32
    var maxVal: Int32
    var hasValue: bool
    ghost const plan: Plan
    ghost const sort: Sorter
    ghost const Repr: set<object>
    ghost const Shared: set<object>

    /** The running values stand for these keys. */
    ghost predicate Folded(keys: seq<int>)
      reads this`count, this`sum, this`minVal, this`maxVal, this`hasValue
    {
      && count == |keys| && sum == Sum(keys) && hasValue == (keys != [])
      && (keys != [] ==> minVal == Least(keys) && maxVal == Greatest(keys))
    }

    ghost predicate Valid()
      reads this, Repr, Shared
      decreases Repr, 0
    {
      && this in Repr && plan == Plan.Aggregate(child.Tree(), kind, offset)
      && child.Repr() <= Repr && this !in child.Repr() && child.SortUsed() == sort
      && child.Shared() == Shared && Shared !! Repr && child.Valid()
      && (initialized ==> Folded(Keys(child.All(), offset)))
    }

    ghost function Rest(): seq<Payload>
      requires Valid()
      reads this, Repr, Shared
      decreases Repr, 0
    {
      if initialized && done then [] else Denote(plan, sort)
    }

    constructor (child: Executor, kind: AggregationType, offset: nat, ghost sort: Sorter)
      requires child.Valid() && child.SortUsed() == sort
      ensures Valid() && this.child == child && this.kind == kind && this.offset == offset && this.sort == sort
      ensures Repr == {this} + child.Repr() && Shared == child.Shared() && Rest() == Denote(plan, sort)
    {
      this.child, this.kind, this.offset, this.sort := child, kind, offset, sort;
      done, initialized, count, sum, minVal, maxVal, hasValue := false, false, 0, 0, 0, 0, false;
      plan, Repr, Shared := Plan.Aggregate(child.Tree(), kind, offset), {this} + child.Repr(), child.Shared();
    }

    /** Rewinds the child and forgets every key. */
    method Start()
      requires Valid()
      modifies Repr
      ensures Valid() && !initialized && !done && child.Rest() == child.All()
      ensures Folded(Keys([], offset))
      decreases plan, 0
    {
      hide Executor.Valid, Executor.Rest, Executor.Repr, Executor.Shared, Executor.Tree, Executor.SortUsed, Denote;
      done, initialized := false, false;
      count, sum, hasValue := 0, 0, false;
      child.Init();
    }

    method NextInput(ghost keys: seq<int>) returns (more: bool, t: Payload)
      requires Valid() && !initialized && Folded(keys)
      modifies child.Repr()
      ensures Valid() && !initialized && done == old(done) && Folded(keys)
      ensures more == (old(child.Rest()) != []) && (!more ==> child.Rest() == [])
      ensures more ==> old(child.Rest()) == [t] + child.Rest()
      decreases plan, 0
    {
      hide Executor.Valid, Executor.Rest, Executor.Repr, Executor.Shared, Executor.Tree, Executor.SortUsed, Denote, Sum, Least, Greatest;
      more, t := child.Next();
    }

    /** Takes one more key into the running values. */
    method Fold(v: Int32, ghost keys: seq<int>)
      requires Valid() && !initialized && Folded(keys)
      modifies this`count, this`sum, this`minVal, this`maxVal, this`hasValue
      ensures Valid() && child.Rest() == old(child.Rest()) && Folded(keys + [v])
    {
      hide Executor.Valid, Executor.Rest, Executor.Repr, Executor.Shared, Executor.Tree, Executor.SortUsed, Denote, Sum, Least, Greatest;
      FoldStep(keys, v);
      count := count + 1;
      sum := sum + v;
      if !hasValue {
        minVal, maxVal := v, v;
        hasValue := true;
      } else {
        if v < minVal {
          minVal := v;
        }
        if v > maxVal {
          maxVal := v;
        }
      }
    }

    method Init()
      requires Valid()
      modifies Repr
      ensures Valid() && initialized && Rest() == Denote(plan, sort)
      decreases plan, 1
    {
      hide Executor.Valid, Executor.Rest, Executor.Repr, Executor.Shared, Executor.Tree, Executor.SortUsed, Denote, Aggregated, Folded, Key, Keys;
      Start();
      ghost var taken: seq<Payload> := [];
      var more, t := NextInput(Keys(taken, offset));
      while more
        invariant Valid() && !initialized && !done && Folded(Keys(taken, offset))
        invariant more ==> taken + [t] + child.Rest() == child.All()
        invariant !more ==> taken == child.All()
        decreases more, |child.Rest()|
      {
        KeysAppend(taken, t, offset);
        Fold(Key(t, offset), Keys(taken, offset));
        taken := taken + [t];
        more, t := NextInput(Keys(taken, offset));
      }
      Finish();
    }

    method Finish()
      requires Valid() && Folded(Keys(child.All(), offset))
      modifies this`initialized
      ensures Valid() && initialized && done == old(done)
    {
      hide Executor.Valid, Executor.Rest, Executor.Repr, Executor.Shared, Executor.Tree, Executor.SortUsed, Denote, Keys, Sum, Least, Greatest;
      initialized := true;
    }

    /** The value asked for, cast down to 32 bits. */
    method Result(ghost keys: seq<int>) returns (result: Int32)
      requires Folded(keys)
      ensures result == Aggregated(keys, kind)
    {
      hide Sum, Least, Greatest, Wrap32, Quotient;
      result := 0;
      match kind {
        case COUNT => result := Wrap32(count);
        case SUM => result := Wrap32(sum);
        case AVG => result := if count != 0 then Wrap32(Quotient(sum, count)) else 0;
        case MIN => result := if hasValue then minVal else 0;
        case MAX => result := if hasValue then maxVal else 0;
      }
    }

    method Next() returns (ok: bool, tuple: Payload)
      requires Valid()
      modifies Repr
      ensures Valid() && ok == (old(Rest()) != [])
      ensures ok ==> old(Rest()) == [tuple] + Rest()
      ensures !ok ==> Rest() == []
      ensures ok ==> |tuple| == 4
      ensures var keys := Keys(child.All(), offset);
              && (ok && keys == [] ==> ReadInt(tuple, 0) == 0)
              && (ok && kind == COUNT && |keys| <= 2147483647 ==> ReadInt(tuple, 0) == |keys|)
              && (ok && kind == SUM && -2147483648 <= Sum(keys) <= 2147483647 ==> ReadInt(tuple, 0) == Sum(keys))
      ensures var keys := Keys(child.All(), offset);
              ok && kind == MIN && keys != [] ==> ReadInt(tuple, 0) in keys && forall k :: k in keys ==> ReadInt(tuple, 0) <= k
      ensures var keys := Keys(child.All(), offset);
              ok && kind == MAX && keys != [] ==> ReadInt(tuple, 0) in keys && forall k :: k in keys ==> k <= ReadInt(tuple, 0)
      // The average drops the fraction: the rest is less than the number of rows and has the sign of the sum.
      ensures var keys := Keys(child.All(), offset);
              ok && kind == AVG && keys != [] ==>
                var n: int := |keys|; var r := Sum(keys) - ReadInt(tuple, 0) * n;
                -n < r < n && (Sum(keys) >= 0 ==> r >= 0) && (Sum(keys) <= 0 ==> r <= 0)
      decreases plan, 2
    {
      hide Executor.Valid, Executor.Rest, Executor.Repr, Executor.Shared, Executor.Tree, Executor.SortUsed;
      hide Sum, Least, Greatest, Keys, IntBytes, Aggregated, Folded;
      if !initialized {
        Init();
      }
      if done {
        return false, [];
      }
      var result := Result(Keys(child.All(), offset));
      done := true;
      RowMeans(Keys(child.All(), offset), kind, child.All(), offset);
      return true, IntBytes(result);
    }
  }

  /** Init followed by Next until it fails: exactly the payloads of the tree, in order. */
  method Collect(e: Executor) returns (all: seq<Payload>)
    requires e.Valid()
    modifies e.Repr()
    ensures e.Valid() && all == e.All() && e.Rest() == []
  {
    hide Executor.Valid, Executor.Rest, Executor.Repr, Executor.Shared, Executor.Tree, Executor.SortUsed, Denote;
    e.Init();
    all := [];
    var more, t := e.Next();
    while more
      invariant e.Valid()
      invariant more ==> all + [t] + e.Rest() == e.All()
      invariant !more ==> all == e.All() && e.Rest() == []
      decreases more, |e.Rest()|
    {
      all := all + [t];
      more, t := e.Next();
    }
  }

  /** An input of a merge, if there is one. */
  method BuildInput(p: Option<Plan>, sort: Sorter) returns (e: Option<Executor>)
    ensures e.Some? == p.Some?
    ensures e.Some? ==> e.value.Valid() && fresh(e.value.Repr()) && fresh(e.value.Shared())
    ensures e.Some? ==> e.value.Tree() == p.value && e.value.SortUsed() == sort
    decreases p
  {
    hide Executor.Valid;
    if p.None? {
      return None;
    }
    var built := Build(p.value, sort);
    e := Some(built);
  }

  /** A layer manager with the given hot pages. */
  method ManagerFor(hotPages: Option<set<int>>) returns (m: LayerManager?)
    ensures if hotPages.None? then m == null else m != null && fresh(m) && m.hotPageIds == hotPages.value
  {
    if hotPages.None? {
      return null;
    }
    m := new LayerManager();
    var todo := hotPages.value;
    while todo != {}
      invariant fresh(m) && todo <= hotPages.value && m.hotPageIds == hotPages.value - todo
      decreases todo
    {
      var id := HashSets.AnyOf(todo);
      m.MarkPageHot(id);
      todo := todo - {id};
    }
  }

  method BuildScan(rows: seq<Row>, hotPages: Option<set<int>>, target: Layer, sort: Sorter) returns (e: Executor)
    ensures e.Valid() && fresh(e.Repr()) && fresh(e.Shared())
    ensures e.Tree() == Scan(rows, hotPages, target) && e.SortUsed() == sort && e.Rest() == e.All()
  {
    var m := ManagerFor(hotPages);
    var scan := new SeqScanExecutor(rows, m, target, sort);
    e := Scanning(scan);
  }

  /** A merge of two inputs that were built apart. */
  method MergeOf(hot: Option<Executor>, cold: Option<Executor>, sort: Sorter) returns (e: Executor)
    requires hot.Some? ==> hot.value.Valid() && hot.value.SortUsed() == sort
    requires cold.Some? ==> cold.value.Valid() && cold.value.SortUsed() == sort
    requires hot.Some? && cold.Some? ==> Apart(hot.value, cold.value)
    ensures e.Valid() && fresh(e.Repr() - ReprOf(hot) - ReprOf(cold)) && e.Shared() == SharedOf(hot) + SharedOf(cold)
    ensures e.Tree() == Plan.Merge(if hot.Some? then Some(hot.value.Tree()) else None,
                                   if cold.Some? then Some(cold.value.Tree()) else None)
    ensures e.SortUsed() == sort && e.Rest() == e.All()
  {
    hide Denote;
    var merge := new MergeExecutor(hot, cold, sort);
    e := Merging(merge);
  }

  method BuildMerge(hot: Option<Plan>, cold: Option<Plan>, sort: Sorter) returns (e: Executor)
    ensures e.Valid() && fresh(e.Repr()) && fresh(e.Shared())
    ensures e.Tree() == Plan.Merge(hot, cold) && e.SortUsed() == sort
    ensures e.Rest() == e.All()
    decreases Plan.Merge(hot, cold), 0
  {
    hide Executor.Valid, Executor.Rest, Executor.Tree, Executor.SortUsed, Denote;
    var h := BuildInput(hot, sort);
    var c := BuildInput(cold, sort);
    e := MergeOf(h, c, sort);
  }

  /** A join of two trees that were built apart. */
  method JoinOf(left: Executor, right: Executor, sort: Sorter) returns (e: Executor)
    requires left.Valid() && right.Valid() && Apart(left, right)
    requires left.SortUsed() == sort && right.SortUsed() == sort
    ensures e.Valid() && fresh(e.Repr() - left.Repr() - right.Repr()) && e.Shared() == left.Shared() + right.Shared()
    ensures e.Tree() == Plan.Join(left.Tree(), right.Tree()) && e.SortUsed() == sort && e.Rest() == e.All()
  {
    hide Denote;
    var join := new JoinExecutor(left, right, sort);
    e := Joining(join);
  }

  method BuildJoin(left: Plan, right: Plan, sort: Sorter) returns (e: Executor)
    ensures e.Valid() && fresh(e.Repr()) && fresh(e.Shared())
    ensures e.Tree() == Plan.Join(left, right) && e.SortUsed() == sort
    ensures e.Rest() == e.All()
    decreases Plan.Join(left, right), 0
  {
    hide Executor.Valid, Executor.Rest, Executor.Tree, Executor.SortUsed, Denote;
    var l := Build(left, sort);
    var r := Build(right, sort);
    e := JoinOf(l, r, sort);
  }

  /** Every tree can be built; unless it is a sort, even a tree that was never initialized produces its payloads. */
  method Build(p: Plan, sort: Sorter) returns (e: Executor)
    ensures e.Valid() && fresh(e.Repr()) && fresh(e.Shared()) && e.Tree() == p && e.SortUsed() == sort
    ensures e.Rest() == if p.Sort? then [] else e.All()
    decreases p, 1
  {
    hide Denote, Scanned, CrossJoin, Aggregated;
    match p {
      case Scan(rows, hotPages, target) =>
        e := BuildScan(rows, hotPages, target, sort);
      case Merge(hot, cold) =>
        e := BuildMerge(hot, cold, sort);
      case Join(left, right) =>
        e := BuildJoin(left, right, sort);
      case Sort(child, offset) =>
        var c := Build(child, sort);
        var sorting := new SortExecutor(c, offset, sort);
        e := Sorting(sorting);
      case Aggregate(child, kind, offset) =>
        var c := Build(child, sort);
        var aggregation := new AggregationExecutor(c, kind, offset, sort);
        e := Aggregating(aggregation);
    }
  }

  /** Running a tree computes what it denotes, and running it again gives the same. */
  method Execute(p: Plan, sort: Sorter) returns (first: seq<Payload>, second: seq<Payload>)
    ensures first == second == Denote(p, sort)
  {
    var e := Build(p, sort);
    first := Collect(e);
    second := Collect(e);
  }

  /** The scan of one layer, asking the given manager. */
  method LayerScan(rows: seq<Row>, m: LayerManager, target: Layer, sort: Sorter) returns (e: Executor)
    ensures e.Valid() && fresh(e.Repr()) && e.Shared() == {m}
    ensures e.Tree() == Scan(rows, Some(m.hotPageIds), target) && e.SortUsed() == sort
  {
    var scan := new SeqScanExecutor(rows, m, target, sort);
    e := Scanning(scan);
  }

  /** The hot and the cold scan of one table, both asking the same manager. */
  method LayeredScan(rows: seq<Row>, m: LayerManager, sort: Sorter) returns (e: Executor)
    ensures e.Valid() && fresh(e.Repr()) && e.SortUsed() == sort
    ensures e.Tree() == Plan.Merge(Some(Scan(rows, Some(m.hotPageIds), HOT)), Some(Scan(rows, Some(m.hotPageIds), COLD)))
  {
    hide Executor.Valid, Executor.Rest, Executor.Tree, Executor.SortUsed, Denote;
    var hot := LayerScan(rows, m, HOT, sort);
    var cold := LayerScan(rows, m, COLD, sort);
    e := MergeOf(Some(hot), Some(cold), sort);
  }

  /**
   * Reading a table by layers against one layer manager, after any marks: first the rows of the hot pages, then those
   * of the others, and no row is lost or repeated.
   */
  method ScanByLayers(rows: seq<Row>, m: LayerManager, marks: seq<Mark>, sort: Sorter) returns (all: seq<Payload>)
    modifies m`hotPageIds
    ensures m.hotPageIds == Marked(old(m.hotPageIds), marks)
    ensures all == Scanned(rows, Some(m.hotPageIds), HOT) + Scanned(rows, Some(m.hotPageIds), COLD)
    ensures all == OnPages(rows, m.hotPageIds, true) + OnPages(rows, m.hotPageIds, false)
    ensures SameElements(all, Payloads(rows))
  {
    hide Executor.Valid, Executor.Rest, Executor.Repr, Executor.Shared, Executor.Tree, Executor.SortUsed, Scanned, Denote;
    m.ApplyMarks(marks);
    DenoteLayers(rows, m.hotPageIds, sort);
    LayersPartition(rows, m.hotPageIds);
    ScannedMeans(rows, m.hotPageIds, BOTH);
    var e := LayeredScan(rows, m, sort);
    all := Collect(e);
  }
}
