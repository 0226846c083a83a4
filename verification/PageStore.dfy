/**
 The store of pages that a client of the buffer pool is meant to see: a map from page id to bytes with pin
 counts and a bound on how many pages can be pinned at once. It knows nothing of frames, eviction or dirty bits.
 */
module PageStore {
  import opened Bytes

  datatype Observation = NoPage | Page(id: int, bytes: PageBytes) | Reply(ok: bool) | Silent

  datatype Store = Store(view: map<int, PageBytes>, pins: map<int, nat>, next: nat, capacity: nat)
  {
    ghost predicate Ok() {
      && (forall id :: id in view <==> 0 <= id < next)
      && pins.Keys <= view.Keys
      && (forall id :: id in pins ==> pins[id] > 0)
    }

    ghost predicate Allocated(id: int) {
      0 <= id < next
    }

    /** Every page the pool can hold is pinned by somebody. */
    ghost predicate Full() {
      |pins| == capacity
    }

    ghost function PinCount(id: int): nat {
      if id in pins then pins[id] else 0
    }

    ghost function Pin(id: int): Store {
      this.(pins := pins[id := PinCount(id) + 1])
    }

    ghost function Fetch(id: int): (r: (Store, Observation))
      requires Ok() && Allocated(id)
      ensures r.0.Ok()
    {
      if id !in pins && Full() then (this, NoPage) else (Pin(id), Page(id, view[id]))
    }

    ghost function New(): (r: (Store, Observation))
      requires Ok()
      ensures r.0.Ok()
    {
      if Full() then (this, NoPage)
      else (Store(view[next := ZeroPage()], pins[next := 1], next + 1, capacity), Page(next, ZeroPage()))
    }

    ghost function Unpin(id: int): (r: (Store, Observation))
      requires Ok()
      ensures r.0.Ok()
    {
      if id !in pins then (this, Reply(false))
      else if pins[id] == 1 then (this.(pins := pins - {id}), Reply(true))
      else (this.(pins := pins[id := pins[id] - 1]), Reply(true))
    }

    /** Only the holder of a pin can reach the bytes of a page. */
    ghost function Write(id: int, bytes: PageBytes): (r: (Store, Observation))
      requires Ok()
      ensures r.0.Ok()
    {
      if id in pins then (this.(view := view[id := bytes]), Silent) else (this, Silent)
    }
  }

  /** Releasing a pin just taken restores every count. */
  lemma PinUnpin(s: Store, id: int)
    requires s.Ok() && s.Allocated(id)
    ensures s.Pin(id).Ok() && s.Pin(id).Unpin(id) == (s, Reply(true))
  {
    var pins := s.Pin(id).pins;
    if id in s.pins {
      assert pins[id := pins[id] - 1] == s.pins;
    } else {
      assert pins - {id} == s.pins;
    }
  }

  /** Creating a page, writing it and releasing it leaves the counts as they were. */
  lemma NewWriteUnpin(s: Store, bytes: PageBytes, more: PageBytes)
    requires s.Ok() && !s.Full()
    ensures var t := s.New().0.Write(s.next, bytes).0;
            && t.Ok() && t == s.New().0.(view := s.view[s.next := bytes])
            && t.Write(s.next, more).0.Unpin(s.next).0 == Store(s.view[s.next := more], s.pins, s.next + 1, s.capacity)
  {
    assert s.next !in s.view;
  }

  /** Pinning a page, writing it and releasing it changes its bytes only. */
  lemma PinWriteUnpin(s: Store, id: int, bytes: PageBytes)
    requires s.Ok() && s.Allocated(id)
    ensures s.Pin(id).Ok() && s.Pin(id).Write(id, bytes).0.Unpin(id).0 == s.(view := s.view[id := bytes])
  {
  }

  datatype Op =
    | Fetch(id: int)
    | New
    | Write(id: int, bytes: PageBytes)
    | Unpin(id: int, isDirty: bool)
    | Flush(id: int)
    | FlushAll
    | Delete(id: int)

  ghost predicate Legal(s: Store, op: Op) {
    op.Fetch? ==> s.Allocated(op.id)
  }

  ghost function Step(s: Store, op: Op): (r: (Store, Observation))
    requires s.Ok() && Legal(s, op)
    ensures r.0.Ok()
  {
    match op
    case Fetch(id) => s.Fetch(id)
    case New => s.New()
    case Write(id, bytes) => s.Write(id, bytes)
    case Unpin(id, _) => s.Unpin(id)
    case Flush(_) => (s, Silent)
    case FlushAll => (s, Silent)
    case Delete(_) => (s, Silent)
  }

  /** Pages changed by a client since they were last released as dirty. */
  ghost function Touched(touched: set<int>, s: Store, op: Op): set<int> {
    match op
    case Write(id, _) => if id in s.pins then touched + {id} else touched
    case Unpin(id, true) => touched - {id}
    case _ => touched
  }

  /** A client that fetches only allocated pages and releases what it changed as dirty at the latest on the last unpin. */
  ghost predicate Disciplined(s: Store, touched: set<int>, ops: seq<Op>)
    requires s.Ok()
    decreases |ops|
  {
    ops == [] || (
      && Legal(s, ops[0])
      && !(ops[0].Unpin? && !ops[0].isDirty && ops[0].id in touched && s.PinCount(ops[0].id) == 1)
      && Disciplined(Step(s, ops[0]).0, Touched(touched, s, ops[0]), ops[1..]))
  }

  /** What a run of client operations observes, and the store it ends in. */
  ghost function Run(s: Store, touched: set<int>, ops: seq<Op>): (r: (Store, seq<Observation>))
    requires s.Ok() && Disciplined(s, touched, ops)
    ensures r.0.Ok() && |r.1| == |ops|
    decreases |ops|
  {
    if ops == [] then (s, []) else
      var (t, o) := Step(s, ops[0]);
      var (u, os) := Run(t, Touched(touched, s, ops[0]), ops[1..]);
      (u, [o] + os)
  }

  /** The first call of a run. */
  lemma RunHead(s: Store, touched: set<int>, ops: seq<Op>)
    requires s.Ok() && Disciplined(s, touched, ops) && ops != []
    ensures var op := ops[0];
            && Legal(s, op) && !(op.Unpin? && !op.isDirty && op.id in touched && s.PinCount(op.id) == 1)
            && var (t, o) := Step(s, op);
            && Disciplined(t, Touched(touched, s, op), ops[1..])
            && Run(s, touched, ops) ==
               (Run(t, Touched(touched, s, op), ops[1..]).0, [o] + Run(t, Touched(touched, s, op), ops[1..]).1)
  {
  }

  lemma RunNone(s: Store, touched: set<int>)
    requires s.Ok()
    ensures Disciplined(s, touched, []) && Run(s, touched, []) == (s, [])
  {
  }

  /** Splitting a run. */
  lemma {:induction false} RunAppend(s: Store, touched: set<int>, ops: seq<Op>, op: Op)
    requires s.Ok() && Disciplined(s, touched, ops + [op])
    ensures Disciplined(s, touched, ops)
    ensures var (t, os) := Run(s, touched, ops);
            && Legal(t, op)
            && Run(s, touched, ops + [op]) == (Step(t, op).0, os + [Step(t, op).1])
    decreases |ops|
  {
    assert (ops + [op])[0] == if ops == [] then op else ops[0];
    if ops == [] {
      assert (ops + [op])[1..] == [];
      var (t, o) := Step(s, op);
      assert Run(t, Touched(touched, s, op), []) == (t, []);
      assert [o] + [] == [] + [o];
    } else {
      assert (ops + [op])[1..] == ops[1..] + [op];
      var (t, o) := Step(s, ops[0]);
      var rest := Touched(touched, s, ops[0]);
      RunAppend(t, rest, ops[1..], op);
      var (u, os) := Run(t, rest, ops[1..]);
      assert [o] + (os + [Step(u, op).1]) == ([o] + os) + [Step(u, op).1];
    }
  }

  ghost predicate WritesTo(ops: seq<Op>, id: int) {
    exists i :: 0 <= i < |ops| && ops[i].Write? && ops[i].id == id
  }

  /** Bytes stay what they are until somebody writes them: no pin, unpin, flush, delete or new page changes them. */
  lemma {:induction false} BytesPersist(s: Store, touched: set<int>, ops: seq<Op>, id: int)
    requires s.Ok() && Disciplined(s, touched, ops) && s.Allocated(id) && !WritesTo(ops, id)
    ensures var t := Run(s, touched, ops).0; t.Allocated(id) && t.view[id] == s.view[id]
    decreases |ops|
  {
    if ops != [] {
      assert forall i :: 0 <= i < |ops[1..]| ==> ops[1..][i] == ops[i + 1];
      BytesPersist(Step(s, ops[0]).0, Touched(touched, s, ops[0]), ops[1..], id);
    }
  }

  /** A fetch after a write returns the bytes written, whatever happens to the page in between. */
  lemma ReadYourWrites(s: Store, touched: set<int>, id: int, bytes: PageBytes, ops: seq<Op>)
    requires s.Ok() && id in s.pins && !WritesTo(ops, id)
    requires Disciplined(s, touched, [Write(id, bytes)] + ops + [Fetch(id)])
    ensures var os := Run(s, touched, [Write(id, bytes)] + ops + [Fetch(id)]).1;
            os[|os| - 1] == NoPage || os[|os| - 1] == Page(id, bytes)
  {
    var all := [Write(id, bytes)] + ops;
    RunAppend(s, touched, all, Fetch(id));
    assert all[0] == Write(id, bytes) && all[1..] == ops;
    BytesPersist(Step(s, all[0]).0, Touched(touched, s, all[0]), ops, id);
  }

  /** Ids handed out by `New` are fresh: in any run, two new pages never share an id. */
  lemma {:induction false} NewIdsGrow(s: Store, touched: set<int>, ops: seq<Op>, i: nat)
    requires s.Ok() && Disciplined(s, touched, ops) && i < |ops| && ops[i] == New
    ensures var os := Run(s, touched, ops).1; os[i] == NoPage || (os[i].Page? && os[i].id >= s.next)
    decreases |ops|
  {
    if i > 0 {
      NewIdsGrow(Step(s, ops[0]).0, Touched(touched, s, ops[0]), ops[1..], i - 1);
    }
  }

  lemma {:induction false} NewIdsDistinct(s: Store, touched: set<int>, ops: seq<Op>, i: nat, j: nat)
    requires s.Ok() && Disciplined(s, touched, ops) && i < j < |ops| && ops[i] == New && ops[j] == New
    ensures var os := Run(s, touched, ops).1; os[i].Page? && os[j].Page? ==> os[i].id != os[j].id
    decreases |ops|
  {
    if i > 0 {
      NewIdsDistinct(Step(s, ops[0]).0, Touched(touched, s, ops[0]), ops[1..], i - 1, j - 1);
    } else {
      NewIdsGrow(Step(s, ops[0]).0, Touched(touched, s, ops[0]), ops[1..], j - 1);
    }
  }
}
