/** Whole runs of clients over the buffer pool: what they observe is what the plain page store would have shown them. */
module PoolClient {
  import opened Bytes
  import opened PageStore
  import opened Pages
  import opened BufferPool

  /** A client and everything it knows: the page objects it was handed and how many pins it has on each page. */
  class Client {
    const pool: BufferPoolManager
    var handles: map<int, Page>
    var counts: map<int, nat>
    ghost var touched: set<int>  // pages it changed since it last released them as dirty

    ghost predicate Valid()
      reads this, pool, pool.replacer, pool.disk, pool.PageSet()
    {
      && pool.Valid()
      && handles == pool.Handles()
      && counts == pool.Seen().pins
      && pool.Unsaved() <= touched <= counts.Keys
    }

    constructor (pool: BufferPoolManager)
      requires pool.Valid() && pool.Synced() && pool.Seen().pins == map[]
      ensures this.pool == pool && Valid() && touched == {}
    {
      this.pool := pool;
      handles, counts, touched := map[], map[], {};
      new;
      assert pool.PageSet() == old(pool.PageSet());
      assert pool.Model() == old(pool.Model());
      assert pool.Handles().Keys == {};
    }

    /** What the client knows from now on. */
    method Remember(handles: map<int, Page>, counts: map<int, nat>, ghost touched: set<int>)
      requires pool.Valid() && handles == pool.Handles() && counts == pool.Seen().pins
      requires pool.Unsaved() <= touched <= counts.Keys
      modifies this
      ensures Valid() && this.touched == touched
      ensures pool.Seen() == old(pool.Seen()) && pool.PageSet() == old(pool.PageSet())
    {
      hide BufferPoolManager.Seen, BufferPoolManager.Unsaved, BufferPoolManager.Handles, BufferPoolManager.Frames;
      hide BufferPoolManager.Valid, BufferPoolManager.Model;
      ghost var pages := pool.PageSet();
      this.handles, this.counts, this.touched := handles, counts, touched;
      assert pool.PageSet() == pages;
    }

    method Fetch(id: int) returns (seen: Observation)
      requires Valid() && pool.Seen().Allocated(id)
      modifies this, pool, pool.replacer, pool.disk, pool.PageSet()
      ensures Valid() && fresh(pool.PageSet() - old(pool.PageSet()))
      ensures (pool.Seen(), seen) == old(pool.Seen()).Fetch(id) && touched == old(touched)
    {
      hide BufferPoolManager.Valid, BufferPoolManager.Seen, BufferPoolManager.Unsaved, BufferPoolManager.Handles;
      hide BufferPoolManager.Placed, BufferPoolManager.Offered;
      hide BufferPoolManager.Model, BufferPoolManager.Object, BufferPoolManager.ViewLeft, BufferPoolManager.NextFrame;
      var page := pool.FetchPage(id);
      if page == null {
        return NoPage;
      }
      var count := if id in counts then counts[id] + 1 else 1;
      Remember(handles[id := page], counts[id := count], touched);
      seen := PageStore.Page(id, page.data);
    }

    method New() returns (seen: Observation)
      requires Valid()
      modifies this, pool, pool.replacer, pool.disk, pool.PageSet()
      ensures Valid() && fresh(pool.PageSet() - old(pool.PageSet()))
      ensures (pool.Seen(), seen) == old(pool.Seen()).New() && touched == old(touched)
    {
      hide BufferPoolManager.Valid, BufferPoolManager.Seen, BufferPoolManager.Unsaved, BufferPoolManager.Handles;
      hide BufferPoolManager.Placed, BufferPoolManager.Offered;
      hide BufferPoolManager.Model, BufferPoolManager.Object, BufferPoolManager.ViewLeft, BufferPoolManager.NextFrame;
      var page, id := pool.NewPage();
      if page == null {
        return NoPage;
      }
      Remember(handles[id := page], counts[id := 1], touched);
      seen := PageStore.Page(id, page.data);
    }

    method Write(id: int, bytes: PageBytes)
      requires Valid()
      modifies this, pool.PageSet()
      ensures Valid() && pool.Seen() == old(pool.Seen()).Write(id, bytes).0
      ensures touched == Touched(old(touched), old(pool.Seen()), Op.Write(id, bytes))
    {
      hide BufferPoolManager.Valid, BufferPoolManager.Seen, BufferPoolManager.Unsaved, BufferPoolManager.Handles;
      hide BufferPoolManager.Placed, BufferPoolManager.Offered;
      hide BufferPoolManager.Model, BufferPoolManager.Object, BufferPoolManager.ViewLeft, BufferPoolManager.NextFrame;
      if id in counts {
        pool.HandleInPool(id);
        pool.WriteBytes(handles[id], id, bytes);
        Remember(handles, counts, touched + {id});
      }
    }

    method Unpin(id: int, isDirty: bool) returns (seen: Observation)
      requires Valid()
      requires isDirty || id !in touched || pool.Seen().PinCount(id) != 1
      modifies this, pool.replacer, pool.PageSet()
      ensures Valid() && (pool.Seen(), seen) == old(pool.Seen()).Unpin(id)
      ensures touched == if isDirty then old(touched) - {id} else old(touched)
    {
      hide BufferPoolManager.Valid, BufferPoolManager.Seen, BufferPoolManager.Unsaved, BufferPoolManager.Handles;
      hide BufferPoolManager.Placed, BufferPoolManager.Offered;
      hide BufferPoolManager.Model, BufferPoolManager.Object, BufferPoolManager.ViewLeft, BufferPoolManager.NextFrame;
      var ok := pool.UnpinPage(id, isDirty);
      var last := ok && counts[id] == 1;
      var handles' := if last then handles - {id} else handles;
      var counts' := if last then counts - {id} else if ok then counts[id := counts[id] - 1] else counts;
      Remember(handles', counts', if isDirty then touched - {id} else touched);
      seen := Reply(ok);
    }

    method Perform(op: Op) returns (seen: Observation)
      requires Valid() && Legal(pool.Seen(), op)
      requires !(op.Unpin? && !op.isDirty && op.id in touched && pool.Seen().PinCount(op.id) == 1)
      modifies this, pool, pool.replacer, pool.disk, pool.PageSet()
      ensures Valid() && fresh(pool.PageSet() - old(pool.PageSet()))
      ensures (pool.Seen(), seen) == Step(old(pool.Seen()), op)
      ensures touched == Touched(old(touched), old(pool.Seen()), op)
    {
      hide BufferPoolManager.Valid, BufferPoolManager.Seen, BufferPoolManager.Unsaved, BufferPoolManager.Handles;
      hide BufferPoolManager.Placed, BufferPoolManager.Offered;
      hide BufferPoolManager.Model, BufferPoolManager.Object, BufferPoolManager.ViewLeft, BufferPoolManager.NextFrame;
      seen := Silent;
      match op {
        case Fetch(id) => seen := Fetch(id);
        case New => seen := New();
        case Write(id, bytes) => Write(id, bytes);
        case Unpin(id, isDirty) => seen := Unpin(id, isDirty);
        case Flush(id) => var _ := pool.FlushPage(id);
        case FlushAll => pool.FlushAllPages();
        case Delete(id) => var _ := pool.DeletePage(id);
      }
    }

    /** Every disciplined run sees the plain page store, whatever is evicted when. */
    method RunAll(ops: seq<Op>) returns (seen: seq<Observation>)
      requires Valid() && Disciplined(pool.Seen(), touched, ops)
      modifies this, pool, pool.replacer, pool.disk, pool.PageSet()
      ensures Valid() && pool.Synced()
      ensures (pool.Seen(), seen) == Run(old(pool.Seen()), old(touched), ops)
    {
      hide BufferPoolManager.Valid, BufferPoolManager.Seen, BufferPoolManager.Unsaved, BufferPoolManager.Handles;
      hide BufferPoolManager.Placed, BufferPoolManager.Offered;
      hide BufferPoolManager.Model, BufferPoolManager.Object, BufferPoolManager.ViewLeft, BufferPoolManager.NextFrame;
      hide Disciplined, Run, Step, Touched, Legal;
      seen := [];
      assert ops[0..] == ops;
      assert [] + Run(pool.Seen(), touched, ops).1 == Run(pool.Seen(), touched, ops).1;
      for i := 0 to |ops|
        invariant Valid() && fresh(pool.PageSet() - old(pool.PageSet()))
        invariant Disciplined(pool.Seen(), touched, ops[i..])
        invariant var (end, rest) := Run(pool.Seen(), touched, ops[i..]);
                  (end, seen + rest) == Run(old(pool.Seen()), old(touched), ops)
      {
        assert ops[i..][0] == ops[i] && ops[i..][1..] == ops[i + 1..];
        RunHead(pool.Seen(), touched, ops[i..]);
        ghost var before := seen;
        var o := Perform(ops[i]);
        seen := seen + [o];
        ghost var rest := Run(pool.Seen(), touched, ops[i + 1..]).1;
        assert before + ([o] + rest) == seen + rest;
      }
      assert ops[|ops|..] == [] && seen + [] == seen;
      RunNone(pool.Seen(), touched);
    }
  }
}
