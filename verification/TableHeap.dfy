/** Tuple insertion into a chain of pages behind the buffer pool. */
module TableHeaps {
  import opened Bytes
  import opened Permutations
  import opened Records
  import opened PageStore
  import FrameModel
  import opened Pages
  import opened BufferPool
  import opened TablePages

  class TableHeap {
    const pool: BufferPoolManager
    var firstPageId: int
    var lastPageId: int
    ghost var sizes: map<int, seq<nat>>  // the sizes of the tuples stored on each page of the heap, in slot order

    ghost function Issued(): set<RID>
      reads this
    {
      IssuedFor(sizes)
    }

    /** Every page header accounts for the tuples stored on the page; a heap may have failed to get its first page. */
    ghost predicate Valid()
      reads this, pool, pool.replacer, pool.disk, pool.PageSet()
    {
      && pool.Valid() && pool.Synced()
      && (if lastPageId == -1 then sizes == map[] else lastPageId in sizes && lastPageId in pool.Seen().view)
      && AllAccount(pool.Seen().view, sizes)
    }

    /** An insertion can be asked for: the heap has a page, or no page can be had, so that the insertion fails. */
    ghost predicate Ready()
      reads this, pool, pool.replacer, pool.disk, pool.PageSet()
      requires pool.Valid()
    {
      lastPageId != -1 || pool.Seen().Full()
    }

    ghost function State(): (h: Heap)
      reads this, pool, pool.replacer, pool.disk, pool.PageSet()
      requires Valid()
      ensures h.Ok()
    {
      Heap(pool.Seen().view, sizes, lastPageId, pool.Seen().next)
    }

    /** A zeroed page with an empty header, pinned. */
    static method StartPage(pool: BufferPoolManager) returns (page: Page?, pageId: nat)
      requires pool.Valid() && pool.Synced()
      modifies pool, pool.replacer, pool.disk, pool.PageSet()
      ensures pool.Valid() && pool.Synced() && fresh(pool.PageSet() - old(pool.PageSet()))
      ensures page == null <==> old(pool.Seen()).Full()
      ensures page == null ==> pool.Seen() == old(pool.Seen())
      ensures page != null ==> pageId == old(pool.Seen()).next && pageId in pool.Handles() && page == pool.Handles()[pageId]
      ensures page != null ==> page.data == Format(ZeroPage()) && page.pageId == pageId
      ensures page != null ==>
                var s := old(pool.Seen()); pool.Seen() == s.New().0.(view := s.view[pageId := Format(ZeroPage())])
    {
      hide BufferPoolManager.Valid, BufferPoolManager.Seen, BufferPoolManager.Unsaved, BufferPoolManager.Handles;
      hide BufferPoolManager.Placed, BufferPoolManager.Offered;
      hide BufferPoolManager.Model, BufferPoolManager.Object, BufferPoolManager.ViewLeft, BufferPoolManager.NextFrame, Format;
      hide BufferPoolManager.Swept, BufferPoolManager.OnDisk, FrameModel.Pool.Loaded, FrameModel.Vacated;
      ghost var s := pool.Seen();
      page, pageId := pool.NewPage();
      if page != null {
        NewWriteUnpin(s, Format(ZeroPage()), Format(ZeroPage()));
        pool.HandleInPool(pageId);
        pool.WriteBytes(page, pageId, Format(ZeroPage()));
      }
    }

    /** Creates the first page and releases it again. */
    static method FirstPage(pool: BufferPoolManager) returns (pageId: int)
      requires pool.Valid() && pool.Synced()
      modifies pool, pool.replacer, pool.disk, pool.PageSet()
      ensures pool.Valid() && pool.Synced() && pool.Seen().pins == old(pool.Seen()).pins
      ensures pageId == if old(pool.Seen()).Full() then -1 else old(pool.Seen()).next
      ensures pageId != -1 ==> pageId in pool.Seen().view && pool.Seen().view[pageId] == Format(ZeroPage())
    {
      hide BufferPoolManager.Valid, BufferPoolManager.Seen, BufferPoolManager.Unsaved, BufferPoolManager.Handles;
      hide BufferPoolManager.Placed, BufferPoolManager.Offered;
      hide BufferPoolManager.Model, BufferPoolManager.Object, BufferPoolManager.ViewLeft, BufferPoolManager.NextFrame, Format;
      ghost var s := pool.Seen();
      pageId := -1;
      var page, id := StartPage(pool);
      if page != null {
        NewWriteUnpin(s, Format(ZeroPage()), Format(ZeroPage()));
        var _ := pool.UnpinPage(id, true);
        pageId := id;
      }
    }

    /** Without a frame for its first page the heap has none. */
    constructor (pool: BufferPoolManager)
      requires pool.Valid() && pool.Synced()
      modifies pool, pool.replacer, pool.disk, pool.PageSet()
      ensures this.pool == pool && (lastPageId == -1 <==> old(pool.Seen()).Full()) && firstPageId == lastPageId
      ensures Valid() && Issued() == {} && pool.Seen().pins == old(pool.Seen()).pins
    {
      hide BufferPoolManager.Valid, BufferPoolManager.Seen, BufferPoolManager.Unsaved, BufferPoolManager.Handles;
      hide BufferPoolManager.Placed, BufferPoolManager.Offered;
      hide BufferPoolManager.Model, BufferPoolManager.Object, BufferPoolManager.ViewLeft, BufferPoolManager.NextFrame, Format;
      var pageId := FirstPage(pool);
      FormatAccounts(ZeroPage());
      this.pool, firstPageId, lastPageId := pool, pageId, pageId;
      sizes := if pageId == -1 then map[] else map[pageId := []];
      label Built:
      new;
      assert pool.PageSet() == old@Built(pool.PageSet());
      assert pool.Model() == old@Built(pool.Model());
    }

    /** Finishing an insertion on a pinned page: the bytes, the dirty release, the slot number. */
    static method StoreOn(pool: BufferPoolManager, page: Page, ghost pageId: int, tuple: seq<Byte>, ghost before: seq<nat>)
      returns (slotNum: nat)
      requires pool.Valid() && pool.Synced()
      requires pageId in pool.Handles() && page == pool.Handles()[pageId]
      requires page.data == pool.Seen().view[pageId] && page.pageId == pageId
      requires Accounts(page.data, before) && Fits(page.data, |tuple|)
      modifies pool.replacer, pool.PageSet()
      ensures pool.Valid() && pool.Synced() && slotNum == |before|
      ensures var s := old(pool.Seen()); var stored := Stored(s.view[pageId], tuple);
              && Accounts(stored, before + [|tuple|])
              && pool.Seen() == s.Write(pageId, stored).0.Unpin(pageId).0
    {
      hide BufferPoolManager.Valid, BufferPoolManager.Seen, BufferPoolManager.Unsaved, BufferPoolManager.Handles;
      hide BufferPoolManager.Placed, BufferPoolManager.Offered;
      hide BufferPoolManager.Model, BufferPoolManager.Object, BufferPoolManager.ViewLeft, BufferPoolManager.NextFrame;
      hide Stored, Fits;
      StoredAccounts(page.data, before, tuple);
      slotNum := SlotCount(page.data);
      pool.HandleInPool(pageId);
      pool.WriteBytes(page, pageId, Stored(page.data, tuple));
      var _ := pool.UnpinPage(page.pageId, true);
    }

    /** From a held page without room to a fresh one; `s` is what the pool showed before the page was held. */
    static method MoveOn(pool: BufferPoolManager, last: int, ghost s: Store) returns (page: Page?, pageId: int)
      requires pool.Valid() && s.Ok() && s.Allocated(last) && pool.Seen() == s.Pin(last)
      requires pool.Unsaved() <= s.pins.Keys
      modifies pool, pool.replacer, pool.disk, pool.PageSet()
      ensures pool.Valid() && pool.Synced() && fresh(pool.PageSet() - old(pool.PageSet()))
      ensures page == null <==> s.Full()
      ensures page == null ==> pool.Seen() == s
      ensures page != null ==> pageId == s.next && pageId in pool.Handles() && page == pool.Handles()[pageId]
      ensures page != null ==> page.data == pool.Seen().view[pageId] == Format(ZeroPage()) && page.pageId == pageId
      ensures page != null ==> pool.Seen() == s.New().0.(view := s.view[s.next := Format(ZeroPage())])
    {
      hide BufferPoolManager.Valid, BufferPoolManager.Seen, BufferPoolManager.Unsaved, BufferPoolManager.Handles;
      hide BufferPoolManager.Placed, BufferPoolManager.Offered;
      hide BufferPoolManager.Model, BufferPoolManager.Object, BufferPoolManager.ViewLeft, BufferPoolManager.NextFrame, Format;
      PinUnpin(s, last);
      var _ := pool.UnpinPage(last, false);
      page, pageId := StartPage(pool);
    }

    /** A pinned page with room for the tuple: the last one, or a new one if the last is full. */
    static method PageFor(pool: BufferPoolManager, last: int, size: nat) returns (page: Page?, pageId: int)
      requires pool.Valid() && pool.Synced() && size <= PAGE_SIZE - SLOT_HEADER - 64
      requires pool.Seen().Allocated(last) || pool.Seen().Full()
      modifies pool, pool.replacer, pool.disk, pool.PageSet()
      ensures pool.Valid() && pool.Synced() && fresh(pool.PageSet() - old(pool.PageSet()))
      ensures var s := old(pool.Seen());
              page != null <==> !s.Full() || (last in s.pins && Fits(s.view[last], size))
      ensures page == null ==> pool.Seen() == old(pool.Seen())
      ensures page != null ==> pageId in pool.Handles() && page == pool.Handles()[pageId] && page.pageId == pageId
      ensures page != null ==> page.data == pool.Seen().view[pageId] && old(pool.Seen()).Allocated(last)
      ensures page != null ==>
                var s := old(pool.Seen());
                if Fits(s.view[last], size) then pageId == last && pool.Seen() == s.Pin(last)
                else pageId == s.next && !s.Full() && pool.Seen() == s.New().0.(view := s.view[s.next := Format(ZeroPage())])
    {
      hide BufferPoolManager.Valid, BufferPoolManager.Seen, BufferPoolManager.Unsaved, BufferPoolManager.Handles;
      hide BufferPoolManager.Placed, BufferPoolManager.Offered;
      hide BufferPoolManager.Model, BufferPoolManager.Object, BufferPoolManager.ViewLeft, BufferPoolManager.NextFrame, Format, Fits;
      ghost var s := pool.Seen();
      pageId := last;
      page := pool.FetchPage(last);
      if page == null {
        // A full pool refused the page, so it refuses a new one as well and the insertion fails.
        var other, _ := pool.NewPage();
        assert other == null;
        return;
      }
      if !Fits(page.data, size) {
        page, pageId := MoveOn(pool, last, s);
      }
    }

    /** The pages and pins of an insertion; `before` are the sizes stored on the last page so far. */
    static method InsertAt(pool: BufferPoolManager, last: int, tuple: seq<Byte>, ghost before: seq<nat>)
      returns (ok: bool, pageId: int, slotNum: nat)
      requires pool.Valid() && pool.Synced() && |tuple| <= PAGE_SIZE - SLOT_HEADER - 64
      requires if pool.Seen().Allocated(last) then Accounts(pool.Seen().view[last], before) else pool.Seen().Full()
      modifies pool, pool.replacer, pool.disk, pool.PageSet()
      ensures pool.Valid() && pool.Synced() && fresh(pool.PageSet() - old(pool.PageSet()))
      ensures var s := old(pool.Seen()); ok <==> !s.Full() || (last in s.pins && Fits(s.view[last], |tuple|))
      ensures !ok ==> pool.Seen() == old(pool.Seen())
      ensures ok ==> old(pool.Seen()).Allocated(last)
      ensures ok ==>
                var s := old(pool.Seen());
                if Fits(s.view[last], |tuple|) then
                  pageId == last && slotNum == |before|
                  && pool.Seen() == s.(view := s.view[last := Stored(s.view[last], tuple)])
                else
                  pageId == s.next && slotNum == 0 && Fits(Format(ZeroPage()), |tuple|) && Accounts(Format(ZeroPage()), [])
                  && pool.Seen() == Store(s.view[s.next := Stored(Format(ZeroPage()), tuple)], s.pins, s.next + 1, s.capacity)
    {
      hide BufferPoolManager.Valid, BufferPoolManager.Seen, BufferPoolManager.Unsaved, BufferPoolManager.Handles;
      hide BufferPoolManager.Placed, BufferPoolManager.Offered;
      hide BufferPoolManager.Model, BufferPoolManager.Object, BufferPoolManager.ViewLeft, BufferPoolManager.NextFrame;
      hide Format, Fits, Stored;
      ghost var s := pool.Seen();
      FormatAccounts(ZeroPage());
      FormatFits(ZeroPage(), |tuple|);
      slotNum := 0;
      var page;
      page, pageId := PageFor(pool, last, |tuple|);
      if page == null {
        return false, pageId, slotNum;
      }
      ghost var reused := Fits(s.view[last], |tuple|);
      ghost var stored := Stored(page.data, tuple);
      PinWriteUnpin(s, last, stored);
      if !reused {
        NewWriteUnpin(s, Format(ZeroPage()), stored);
      }
      slotNum := StoreOn(pool, page, pageId, tuple, if reused then before else []);
      ok := true;
    }

    /** The heap's own account of an insertion. */
    method Note(pageId: int, ghost sizes: map<int, seq<nat>>)
      requires pool.Valid() && pool.Synced() && pageId in sizes && AllAccount(pool.Seen().view, sizes) && pageId != -1
      modifies this`lastPageId, this`sizes
      ensures Valid() && lastPageId == pageId && this.sizes == sizes
      ensures pool.Seen() == old(pool.Seen()) && pool.PageSet() == old(pool.PageSet())
    {
      hide BufferPoolManager.Valid, BufferPoolManager.Seen, BufferPoolManager.Unsaved, BufferPoolManager.Handles;
      hide BufferPoolManager.Model, BufferPoolManager.Frames, AllAccount;
      ghost var pages := pool.PageSet();
      ghost var view := pool.Seen().view;
      AccountsInView(view, sizes, pageId);
      lastPageId, this.sizes := pageId, sizes;
      assert pool.PageSet() == pages;
    }

    /**
     * Stores a tuple and names it by a record id never handed out before. It fails, changing nothing, exactly when
     * the pool is full and the last page is either not pinned already or has no room.
     */
    method InsertTuple(tuple: seq<Byte>) returns (ok: bool, rid: RID)
      requires Valid() && Ready()
      modifies this, pool, pool.replacer, pool.disk, pool.PageSet()
      ensures Valid() && fresh(pool.PageSet() - old(pool.PageSet()))
      ensures pool.Seen().pins == old(pool.Seen()).pins && pool.Seen().capacity == old(pool.Seen()).capacity
      ensures ok <==> !old(pool.Seen()).Full() ||
                      (old(lastPageId) in old(pool.Seen()).pins && old(State()).Room(|Kept(tuple)|))
      ensures (State(), rid) == if ok then Inserted(old(State()), Kept(tuple)) else (old(State()), RID(-1, -1))
      ensures ok ==> old(lastPageId) != -1 && rid !in old(Issued()) && Issued() == old(Issued()) + {rid}
      ensures old(lastPageId) != -1 ==> lastPageId != -1
      // The tuple stays on the last page exactly if that has room by its own accounts.
      ensures ok ==>
                var size, before := if |tuple| <= 4020 then |tuple| else 4020, old(sizes[lastPageId]);
                rid == if |before| < 102 && 12 + Sum(before) + size + 8 <= 4096 then RID(old(lastPageId), |before|)
                       else RID(old(pool.Seen()).next, 0)
    {
      hide BufferPoolManager.Valid, BufferPoolManager.Seen, BufferPoolManager.Unsaved, BufferPoolManager.Handles;
      hide BufferPoolManager.Placed, BufferPoolManager.Offered;
      hide BufferPoolManager.Model, BufferPoolManager.Object, BufferPoolManager.ViewLeft, BufferPoolManager.NextFrame;
      hide Format, Fits, Stored, IssuedFor, Kept, Storable, Sum;
      ghost var h := State();
      rid := RID(-1, -1);
      var kept := Kept(tuple);
      var pageId, slotNum;
      InsertedKeeps(h, kept);
      if h.last != -1 {
        InsertedMeans(h, tuple);
      }
      ok, pageId, slotNum := InsertAt(pool, lastPageId, kept, if h.last == -1 then [] else h.sizes[h.last]);
      if ok {
        rid := RID(pageId, slotNum);
        Note(pageId, Inserted(h, kept).0.sizes);
      }
    }

    /** Over a run of insertions no record id is handed out twice. */
    method InsertAll(tuples: seq<seq<Byte>>) returns (rids: seq<RID>)
      requires Valid() && Ready()
      modifies this, pool, pool.replacer, pool.disk, pool.PageSet()
      ensures Valid() && pool.Seen().pins == old(pool.Seen()).pins
      ensures forall i, j :: 0 <= i < j < |rids| ==> rids[i] != rids[j]
      ensures forall i :: 0 <= i < |rids| ==> rids[i] !in old(Issued())
      ensures old(pool.Seen()).Full() || |rids| == |tuples|
    {
      hide BufferPoolManager.Valid, BufferPoolManager.Seen, BufferPoolManager.Unsaved, BufferPoolManager.Handles;
      hide BufferPoolManager.Placed, BufferPoolManager.Offered;
      hide BufferPoolManager.Model, BufferPoolManager.Object, BufferPoolManager.ViewLeft, BufferPoolManager.NextFrame;
      hide Format, Fits, Stored, IssuedFor, AllAccount, Inserted, Kept, Heap.Room;
      rids := [];
      for n := 0 to |tuples|
        invariant Valid() && Ready() && fresh(pool.PageSet() - old(pool.PageSet()))
        invariant pool.Seen().pins == old(pool.Seen()).pins && pool.Seen().capacity == old(pool.Seen()).capacity
        invariant forall i :: 0 <= i < |rids| ==> rids[i] in Issued() && rids[i] !in old(Issued())
        invariant old(Issued()) <= Issued()
        invariant forall i, j :: 0 <= i < j < |rids| ==> rids[i] != rids[j]
        invariant old(pool.Seen()).Full() || |rids| == n
      {
        var ok, rid := InsertTuple(tuples[n]);
        if ok {
          rids := rids + [rid];
        }
      }
    }

    /** Why an insertion must be ready: looking for page -1 breaks the pool exactly when a frame can be had for it. */
    method FetchMissingPage() returns (page: Page?)
      requires Valid() && lastPageId == -1
      modifies pool, pool.replacer, pool.disk, pool.PageSet()
      ensures pool.Valid() <==> old(Ready())
      ensures page == null <==> old(Ready())
    {
      hide BufferPoolManager.Valid, BufferPoolManager.Seen, BufferPoolManager.Unsaved, BufferPoolManager.Handles;
      hide BufferPoolManager.Placed, BufferPoolManager.Offered;
      hide BufferPoolManager.Model, BufferPoolManager.Object, BufferPoolManager.ViewLeft, BufferPoolManager.NextFrame;
      page := pool.FetchPage(lastPageId);
    }
  }
}
