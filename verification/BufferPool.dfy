/** The buffer pool manager: page objects in frames, a page table, the layered replacer and the disk. */
module BufferPool {
  import opened Bytes
  import opened PageStore
  import opened FrameModel
  import opened Pages
  import opened Disk
  import opened LayeredReplacer
  import HashSets

  /** The first free frame. */
  ghost function FirstNull(pages: seq<Page?>): (f: nat)
    ensures f <= |pages| && (f < |pages| ==> pages[f] == null)
    ensures forall g :: 0 <= g < f ==> pages[g] != null
  {
    if pages == [] || pages[0] == null then 0 else 1 + FirstNull(pages[1..])
  }

  class BufferPoolManager {
    const poolSize: nat
    const replacer: LayeredClock
    const disk: DiskManager
    var pages: seq<Page?>
    var pageTable: map<int, nat>

    ghost function PageSet(): set<Page>
      reads this
    {
      set p: Page | p in pages
    }

    function PageAt(f: nat): Page?
      reads this
      requires f < |pages|
    {
      pages[f]
    }

    ghost function Occupant(f: nat): set<Page>
      reads this
      requires f < |pages|
    {
      if pages[f] == null then {} else {pages[f]}
    }

    ghost function Frames(): (s: seq<Frame>)
      reads this, PageSet()
      ensures |s| == |pages| && forall f :: 0 <= f < |s| ==> s[f] == FrameOf(pages[f])
    {
      seq(|pages|, f requires 0 <= f < |pages| reads this, PageSet() =>
        assert pages[f] != null ==> pages[f] in PageSet(); FrameOf(pages[f]))
    }

    ghost function Model(): Pool
      reads this, replacer, disk, PageSet()
    {
      Pool(Frames(), pageTable, replacer.inReplacer, disk.blocks, disk.nextPageId)
    }

    ghost predicate Valid()
      reads this, replacer, disk, PageSet()
    {
      && |pages| == poolSize == replacer.frameCount
      && replacer.Valid()
      && Model().Inv()
    }

    constructor (poolSize: nat, disk: DiskManager)
      requires forall id :: id in disk.blocks ==> 0 <= id < disk.nextPageId
      ensures Valid() && fresh(replacer) && this.disk == disk && this.poolSize == poolSize
      ensures pageTable == map[] && forall f :: 0 <= f < poolSize ==> pages[f] == null
    {
      this.poolSize := poolSize;
      this.disk := disk;
      replacer := new LayeredClock(poolSize);
      pages := seq(poolSize, i => null);
      pageTable := map[];
    }

    /** The frame the next page that is not resident goes to: the first free one, else the replacer's victim. */
    ghost function NextFrame(): nat
      reads this, replacer, disk, PageSet()
      requires Valid()
    {
      if FirstNull(pages) < |pages| then FirstNull(pages)
      else if replacer.State().HasVictim() then replacer.State().VictimFrame() else |pages|
    }

    /** The replacer once that frame has been found. */
    ghost function Swept(): (s: ClockState)
      reads this, replacer
      requires replacer.Valid()
      ensures s.Ok() && s.Size() == replacer.frameCount
    {
      if FirstNull(pages) < |pages| then replacer.State() else replacer.State().AfterVictim()
    }

    /** While something is not pinned there is such a frame, and nobody has pinned it. */
    lemma NextFrameExists()
      requires Valid() && !Seen().Full()
      ensures NextFrame() < poolSize && !Model().Pinned(NextFrame())
    {
      var m := Model();
      FullIffAllPinned(m);
      var f: nat :| f < poolSize && !m.Pinned(f);
      assert m.FrameOk(f);
      VictimExists(replacer.State());
      if FirstNull(pages) == |pages| {
        assert f in replacer.State().Candidates();
        assert m.FrameOk(NextFrame());
      }
    }

    /** A frame ready to go: not pinned, not referenced since the last sweep, and not released as hot. */
    ghost predicate Stale(f: nat)
      reads this, replacer
    {
      && f < |pages| && f < |replacer.inReplacer| && f < |replacer.useBits| && f < |replacer.isHot|
      && pages[f] != null && replacer.inReplacer[f] && !replacer.useBits[f] && !replacer.isHot[f]
    }

    /** While there is a frame ready to go, a full pool does not give up a frame that has just been used. */
    lemma UsedFrameSpared(g: nat)
      requires Valid() && Stale(g) && forall f :: 0 <= f < poolSize ==> pages[f] != null
      ensures NextFrame() < poolSize && !replacer.useBits[NextFrame()]
    {
      hide ClockState.HasVictim, ClockState.VictimFrame, Pool.Inv;
      ClockOrder(replacer.State(), g);
    }

    lemma PinnedElsewhere(g: nat, id: int)
      requires Valid() && Stale(g) && id in Seen().pins
      ensures id in pageTable && pageTable[id] != g
    {
      assert Model().EntryOk(id) && Model().FrameOk(g);
    }

    lemma RoomFor(g: nat)
      requires Valid() && Stale(g)
      ensures !Seen().Full() && g < poolSize && !Model().Pinned(g) && Seen().next !in pageTable
    {
      var m := Model();
      assert m.FrameOk(g) && !m.Pinned(g);
      FullIffAllPinned(m);
      assert m.next in m.table ==> m.EntryOk(m.next);
    }

    /** What clients see once that frame has been emptied. */
    ghost function ViewLeft(): map<int, PageBytes>
      reads this, replacer, disk, PageSet()
      requires Valid()
    {
      if NextFrame() < |Frames()| then Model().ViewWithout(NextFrame()) else Model().View()
    }

    /** What the disk holds for a page. */
    ghost function OnDisk(id: int): PageBytes
      reads disk
    {
      if id in disk.blocks then disk.blocks[id] else ZeroPage()
    }

    /** What clients of the pool see. */
    ghost function Seen(): (s: Store)
      reads this, replacer, disk, PageSet()
      requires Valid()
      ensures s.Ok()
    {
      Model().AsStore()
    }

    ghost function Unsaved(): set<int>
      reads this, replacer, disk, PageSet()
      requires Valid()
    {
      Model().Unsaved()
    }

    /** Nothing that could be evicted now would be lost. */
    ghost predicate Synced()
      reads this, replacer, disk, PageSet()
      requires Valid()
    {
      Unsaved() <= Seen().pins.Keys
    }

    /** The page object of a resident page. */
    ghost function Object(id: int): (page: Page)
      reads this, replacer, disk, PageSet()
      requires Valid() && id in pageTable
      ensures page in PageSet() && page.pageId == id
      ensures pageTable[id] < |pages| && page == pages[pageTable[id]]
    {
      assert Model().EntryOk(id);
      pages[pageTable[id]]
    }

    /** The page objects of the pinned pages, which clients may be holding. */
    ghost function Handles(): (h: map<int, Page>)
      reads this, replacer, disk, PageSet()
      requires Valid()
      ensures h.Keys == Seen().pins.Keys
    {
      map id | id in pageTable && Model().PinCount(id) > 0 :: Object(id)
    }

    lemma PinnedResident(id: int)
      requires Valid()
      ensures Seen().capacity == poolSize && (id in Seen().pins ==> id in pageTable)
    {
    }

    lemma PinnedCounts(id: int)
      requires Valid() && id in pageTable
      ensures pageTable[id] < |pages| && pages[pageTable[id]] != null
      ensures id in Seen().pins <==> pages[pageTable[id]].pinCount > 0
    {
      ResidentBytes(Model(), id);
    }

    lemma HandlePages()
      requires Valid()
      ensures forall id :: id in Handles() ==>
                id in pageTable && pageTable[id] < |pages| && pages[pageTable[id]] == Handles()[id]
    {
    }

    lemma HandleInPool(id: int)
      requires Valid() && id in Handles()
      ensures Handles()[id] in PageSet()
    {
    }

    lemma HandlesAre(h: map<int, Page>)
      requires Valid() && h.Keys == Seen().pins.Keys
      requires forall id :: id in h ==> id in pageTable && pageTable[id] < |pages| && pages[pageTable[id]] == h[id]
      ensures Handles() == h
    {
    }

    /** No page object sits in two frames. */
    lemma PagesDistinct()
      requires Valid()
      ensures forall f, g :: 0 <= f < g < |pages| && pages[f] != null ==> pages[f] != pages[g]
    {
      forall f, g | 0 <= f < g < |pages| && pages[f] != null ensures pages[f] != pages[g] {
        assert Model().FrameOk(f) && Model().FrameOk(g);
      }
    }

    /** Reading off the frames after one of them, and only that one, got other contents. */
    twostate lemma FramesBut(f: nat)
      requires f < |pages| == |old(pages)|
      requires forall g :: 0 <= g < |pages| && g != f ==>
                 pages[g] == old(pages[g]) && FrameOf(pages[g]) == old(FrameOf(pages[g]))
      ensures Frames() == old(Frames())[f := FrameOf(pages[f])]
    {
    }

    /** Reading off the model after the page in one frame, and only that one, was changed in place. */
    twostate lemma OnlyFrame(f: nat)
      requires old(Valid()) && f < |pages| && pages == old(pages) && pages[f] != null
      requires forall g :: 0 <= g < |pages| && pages[g] != null && pages[g] != pages[f] ==> unchanged(pages[g])
      ensures Frames() == old(Frames())[f := FrameOf(pages[f])]
    {
      forall g | 0 <= g < |pages| && g != f ensures FrameOf(pages[g]) == old(FrameOf(pages[g])) {
        if pages[g] != null {
          assert old(Model()).FrameOk(f) && old(Model()).FrameOk(g);
        }
      }
    }

    /** The frame is offered for eviction, referenced, with the page's temperature; nothing else in the replacer moves. */
    twostate predicate Offered(f: nat, temperature: PageTemperature)
      reads replacer
    {
      && f < |old(replacer.inReplacer)| && replacer.inReplacer == old(replacer.inReplacer)[f := true]
      && f < |old(replacer.useBits)| && replacer.useBits == old(replacer.useBits)[f := true]
      && f < |old(replacer.isHot)| && replacer.isHot == old(replacer.isHot)[f := temperature == HOT]
      && replacer.clockHand == old(replacer.clockHand)
    }

    /** The state change of an unpin that finds its page pinned. */
    method ReleasePin(frameId: nat, isDirty: bool)
      requires Valid() && frameId < poolSize && pages[frameId] != null && pages[frameId].pinCount > 0
      modifies replacer, PageAt(frameId)`pinCount, PageAt(frameId)`dirty
      ensures replacer.Valid()
      ensures if old(pages[frameId].pinCount) == 1 then Offered(frameId, old(pages[frameId].temperature)) else unchanged(replacer)
      ensures var fr := old(FrameOf(pages[frameId]));
              Model() == old(Model()).With(frameId, fr.(pins := fr.pins - 1, dirty := fr.dirty || isDirty))
    {
      assert Model().FrameOk(frameId);
      var page := pages[frameId];
      page.Unpin();
      if isDirty {
        page.dirty := true;
      }
      if page.pinCount == 0 {
        var isHot := page.temperature == HOT;
        replacer.Unpin(frameId, isHot);
      }
      OnlyFrame(frameId);
    }

    method UnpinPinned(pageId: int, isDirty: bool)
      requires Valid() && pageId in pageTable && pageId in Seen().pins
      modifies replacer, PageSet()`pinCount, PageSet()`dirty
      ensures if old(Seen()).pins[pageId] == 1 then Offered(pageTable[pageId], old(pages[pageTable[pageId]].temperature))
              else unchanged(replacer)
      ensures Valid() && Seen() == old(Seen()).Unpin(pageId).0
      ensures Unsaved() == if isDirty then old(Unsaved()) - {pageId} else old(Unsaved())
      ensures Handles() == if pageId in Seen().pins then old(Handles()) else old(Handles()) - {pageId}
    {
      hide Pool.Inv, Pool.View, Pool.Pins, Pool.Unsaved, Pool.With, Handles, Seen, Unsaved, Offered;
      SeenInModel();
      ghost var m := Model();
      ResidentBytes(m, pageId);
      UnpinKeeps(m, pageId, isDirty);
      HandlePages();
      assert m.Lookup(pageId) == FrameOf(pages[pageTable[pageId]]);
      ReleasePin(pageTable[pageId], isDirty);
      SeenInModel();
      HandlesAre(if old(Seen()).pins[pageId] == 1 then old(Handles()) - {pageId} else old(Handles()));
    }

    /** The last pin of a page given up offers its frame for eviction; any other call leaves the replacer alone. */
    method UnpinPage(pageId: int, isDirty: bool) returns (ok: bool)
      requires Valid()
      modifies replacer, PageSet()`pinCount, PageSet()`dirty
      ensures Valid()
      ensures ok ==> pageId in pageTable
      ensures ok && pageId !in Seen().pins ==> Offered(pageTable[pageId], old(Object(pageId)).temperature)
      ensures !ok || pageId in Seen().pins ==> unchanged(replacer)
      ensures (Seen(), Reply(ok)) == old(Seen()).Unpin(pageId)
      ensures Unsaved() == if ok && isDirty then old(Unsaved()) - {pageId} else old(Unsaved())
      ensures Handles() == if pageId in Seen().pins then old(Handles()) else old(Handles()) - {pageId}
    {
      hide Offered, Pool.Inv, Pool.View, Pool.Pins, Seen, Unsaved;
      PinnedResident(pageId);
      if pageId !in pageTable {
        return false;
      }
      PinnedCounts(pageId);
      if pages[pageTable[pageId]].pinCount == 0 {
        return false;
      }
      UnpinPinned(pageId, isDirty);
      ok := true;
    }

    /** The state change of writing one page back. */
    method WriteBack(frameId: nat)
      requires Valid() && frameId < poolSize && pages[frameId] != null
      modifies disk`blocks, PageAt(frameId)`dirty
      ensures Model() == old(Model()).Flushed(frameId)
    {
      assert Model().FrameOk(frameId);
      var page := pages[frameId];
      if page.dirty {
        disk.WritePage(page.pageId, page.data);
        page.dirty := false;
      }
      OnlyFrame(frameId);
    }

    method FlushPage(pageId: int) returns (ok: bool)
      requires Valid()
      modifies disk`blocks, PageSet()`dirty
      ensures Valid() && ok == (pageId in pageTable)
      ensures Seen() == old(Seen()) && Unsaved() == old(Unsaved()) && Handles() == old(Handles())
      ensures Model() == if ok then old(Model()).Flushed(pageTable[pageId]) else old(Model())
    {
      if pageId !in pageTable {
        return false;
      }
      var frameId := pageTable[pageId];
      assert Model().EntryOk(pageId);
      FlushKeeps(Model(), pageId);
      HandlePages();
      WriteBack(frameId);
      HandlesAre(old(Handles()));
      ok := true;
    }

    /** Every resident page outside `todo` is clean. */
    ghost predicate CleanBut(todo: set<int>)
      reads this, replacer, disk, PageSet()
      requires Valid()
    {
      forall id :: id in pageTable && id !in todo ==> !Object(id).dirty
    }

    method FlushNext(id: int, ghost todo: set<int>)
      requires Valid() && id in pageTable && CleanBut(todo)
      modifies disk`blocks, PageSet()`dirty
      ensures Valid() && Seen() == old(Seen()) && Unsaved() == old(Unsaved()) && Handles() == old(Handles())
      ensures CleanBut(todo - {id})
    {
      hide Pool.Inv, Pool.Flushed, Handles, Seen, Unsaved;
      ghost var m := Model();
      FlushKeeps(m, id);
      forall i | i in pageTable ensures FrameOf(Object(i)) == m.Lookup(i) {
        ResidentBytes(m, i);
      }
      var _ := FlushPage(id);
      forall i | i in pageTable ensures FrameOf(Object(i)) == Model().Lookup(i) {
        ResidentBytes(Model(), i);
      }
    }

    /** Pages are written back in whatever order the page table is walked. */
    method FlushAllPages()
      requires Valid()
      modifies disk`blocks, PageSet()`dirty
      ensures Valid() && Seen() == old(Seen()) && Unsaved() == old(Unsaved()) && Handles() == old(Handles())
      ensures forall id :: id in pageTable ==> !Object(id).dirty
    {
      hide Pool.Inv, Handles, Seen, Unsaved, Object;
      var todo := pageTable.Keys;
      while todo != {}
        invariant Valid() && Seen() == old(Seen()) && Unsaved() == old(Unsaved()) && Handles() == old(Handles())
        invariant todo <= pageTable.Keys && CleanBut(todo)
        decreases todo
      {
        var id := HashSets.AnyOf(todo);
        FlushNext(id, todo);
        todo := todo - {id};
      }
    }

    /** The state change of deleting an unpinned page: written back if dirty, then dropped from the pool. */
    method Drop(frameId: nat)
      requires Valid() && frameId < poolSize && pages[frameId] != null && pages[frameId].pinCount == 0
      modifies this, replacer`inReplacer, disk`blocks, PageAt(frameId)`data, PageAt(frameId)`dirty, PageAt(frameId)`pinCount
      ensures |pages| == poolSize && replacer.Valid() && PageSet() <= old(PageSet())
      ensures pages == old(pages)[frameId := null]
      ensures Model() == old(Model()).Evicted(frameId)
    {
      ghost var m := Model();
      assert m.FrameOk(frameId);
      var page := pages[frameId];
      if page.dirty {
        disk.WritePage(page.pageId, page.data);
      }
      pageTable := pageTable - {page.pageId};
      page.Reset();
      pages := pages[frameId := null];
      replacer.Pin(frameId);
      forall g | 0 <= g < |pages| && g != frameId ensures FrameOf(pages[g]) == m.frames[g] {
        assert m.FrameOk(g);
      }
      assert Frames() == m.frames[frameId := Empty];
    }

    method DropUnpinned(pageId: int)
      requires Valid() && pageId in pageTable && pageId !in Seen().pins
      modifies this, replacer`inReplacer, disk`blocks, PageSet()`data, PageSet()`dirty, PageSet()`pinCount
      ensures Valid() && PageSet() <= old(PageSet()) && pageTable == old(pageTable) - {pageId}
      ensures Seen().pins == old(Seen()).pins && Seen().next == old(Seen()).next
      ensures old(Synced()) ==> Seen() == old(Seen()) && Unsaved() == old(Unsaved())
      ensures Handles() == old(Handles())
    {
      hide Pool.Inv, Pool.View, Pool.Pins, Pool.Unsaved;
      SeenInModel();
      DropKeeps(Model(), pageId);
      HandlePages();
      Drop(pageTable[pageId]);
      HandlesAre(old(Handles()));
    }

    /** A resident page that nobody has pinned leaves the pool; on disk it stays readable. */
    method DeletePage(pageId: int) returns (ok: bool)
      requires Valid()
      modifies this, replacer`inReplacer, disk`blocks, PageSet()`data, PageSet()`dirty, PageSet()`pinCount
      ensures Valid() && PageSet() <= old(PageSet())
      ensures ok == (pageId in old(pageTable) && pageId !in old(Seen()).pins)
      ensures ok ==> pageTable == old(pageTable) - {pageId}
      ensures !ok ==> Model() == old(Model())
      ensures Seen().pins == old(Seen()).pins && Seen().next == old(Seen()).next
      ensures old(Synced()) ==> Seen() == old(Seen()) && Unsaved() == old(Unsaved())
      ensures Handles() == old(Handles())
    {
      ResidentHasRoom(Model(), pageId);
      if pageId !in pageTable {
        return false;
      }
      assert Model().EntryOk(pageId);
      if pages[pageTable[pageId]].pinCount > 0 {
        return false;
      }
      DropUnpinned(pageId);
      ok := true;
    }

    /**
     * A frame for a page that is not resident: the first free one, otherwise the replacer's victim, written back
     * if dirty and taken out of the page table. The caller finds the old page object still in the frame.
     */
    method TakeFrame() returns (ok: bool, frameId: nat)
      requires Valid()
      modifies this`pageTable, replacer, disk`blocks
      ensures replacer.Valid()
      ensures ok <==> !old(Seen()).Full()
      ensures !ok ==> Model() == old(Model())
      ensures ok ==> frameId < poolSize && !old(Model()).Pinned(frameId)
      ensures ok ==> Model().(frames := Frames()[frameId := Empty]) == Vacated(old(Model()), frameId)
      ensures ok ==> frameId == old(NextFrame())
      ensures replacer.State() == if ok then old(Swept()) else old(replacer.State())
    {
      hide Pool.Inv, Pool.Evicted, ClockState.AfterVictim, ClockState.HasVictim, ClockState.VictimFrame;
      ghost var m := Model();
      FullIffAllPinned(m);
      for i := 0 to poolSize
        invariant forall f :: 0 <= f < i ==> pages[f] != null
        invariant unchanged(this) && unchanged(replacer) && unchanged(disk)
      {
        if pages[i] == null {
          assert !m.Pinned(i);
          assert Frames()[i := Empty] == Frames();
          return true, i;
        }
      }
      ok, frameId := EvictVictim();
    }

    /** The replacer's victim is a frame nobody has pinned, and there is one as long as there is such a frame. */
    lemma VictimUnpinned()
      requires Valid() && forall f :: 0 <= f < poolSize ==> pages[f] != null
      ensures replacer.State().HasVictim() <==> exists f: nat :: f < poolSize && !Model().Pinned(f)
      ensures var clock := replacer.State();
              if clock.HasVictim() then
                var f := clock.VictimFrame();
                && f < poolSize && !Model().Pinned(f) && pages[f] != null && pages[f].pinCount == 0
                && clock.AfterVictim().inReplacer == clock.inReplacer[f := false]
              else clock.AfterVictim() == clock
    {
      hide ClockState.VictimPosition, ClockState.Cleared, ClockState.ClearedTwice, ClockState.FirstStop;
      forall f: nat | f < poolSize ensures f in replacer.State().Candidates() <==> !Model().Pinned(f) {
        assert Model().FrameOk(f);
      }
      VictimExists(replacer.State());
    }

    method EvictVictim() returns (ok: bool, frameId: nat)
      requires Valid() && forall f :: 0 <= f < poolSize ==> pages[f] != null
      modifies this`pageTable, replacer, disk`blocks
      ensures replacer.Valid()
      ensures ok <==> exists f: nat :: f < poolSize && !old(Model()).Pinned(f)
      ensures !ok ==> Model() == old(Model())
      ensures ok ==> frameId < poolSize && !old(Model()).Pinned(frameId)
      ensures ok ==> Model().(frames := Frames()[frameId := Empty]) == old(Model()).Evicted(frameId)
      ensures ok ==> var clock := old(replacer.State()); clock.HasVictim() && frameId == clock.VictimFrame()
      ensures replacer.State() == if ok then old(replacer.State()).AfterVictim() else old(replacer.State())
    {
      hide ClockState.HasVictim, ClockState.VictimFrame, ClockState.AfterVictim, Pool.Inv, Pool.Pinned;
      VictimUnpinned();
      ok, frameId := replacer.Victim();
      if ok {
        var victim := pages[frameId];
        assert victim.pinCount == 0;  // so the "victim is pinned" exits are never taken
        if victim.dirty {
          disk.WritePage(victim.pageId, victim.data);
        }
        pageTable := pageTable - {victim.pageId};
        assert Frames() == old(Frames());
      }
    }

    /** Installing a page in an unpinned frame moves no pinned page to another object. */
    lemma HandlesKept(h: map<int, Page>, m: Pool, oldPages: seq<Page?>, frameId: nat, newId: int)
      requires Valid() && m.Inv() && frameId < |m.frames| == |oldPages| == poolSize
      requires h.Keys == m.Pins().Keys
      requires forall id :: id in h ==> id in m.table && m.table[id] < |oldPages| && oldPages[m.table[id]] == h[id]
      requires !m.Pinned(frameId) && newId !in m.table && pages[frameId] != null
      requires forall g :: 0 <= g < poolSize && g != frameId ==> pages[g] == oldPages[g]
      requires pageTable == Vacated(m, frameId).table[newId := frameId]
      requires Seen().pins == m.Pins()[newId := 1]
      ensures Handles() == h[newId := pages[frameId]]
    {
      PinnedStay(m, frameId);
      HandlesAre(h[newId := pages[frameId]]);
    }

    /** The next frame holds a page, in the object left there or else in a new one, and the clock has been told. */
    twostate predicate Placed()
      requires old(Valid())
      reads this, replacer, set p: Page | p in pages
    {
      var f := old(NextFrame());
      && f < |old(pages)| == |pages| && pages[f] != null && pages == old(pages)[f := pages[f]]
      && (if old(pages)[f] == null then pages[f].temperature == NORMAL else pages[f] == old(pages)[f])
      && replacer.State() == old(Swept()).AfterPin(f)
    }

    /** Placing a page in a taken frame, reusing the page object left there, and pinning it. */
    method Install(frameId: nat, pageId: int, data: PageBytes, ghost vacated: Pool) returns (page: Page)
      requires frameId < |pages| == poolSize == replacer.frameCount && replacer.Valid()
      requires forall f, g :: 0 <= f < g < |pages| && pages[f] != null ==> pages[f] != pages[g]
      requires Model().(frames := Frames()[frameId := Empty]) == vacated
      modifies this, replacer`inReplacer, Occupant(frameId)`data, Occupant(frameId)`pageId
      modifies Occupant(frameId)`dirty, Occupant(frameId)`pinCount
      ensures replacer.Valid() && fresh(PageSet() - old(PageSet()))
      ensures pages == old(pages)[frameId := page] && page.data == data && !page.dirty
      ensures Model() == vacated.Loaded(frameId, pageId, data)
      ensures replacer.State() == old(replacer.State()).AfterPin(frameId)
      ensures if old(pages[frameId]) == null then page.temperature == NORMAL else page == old(pages[frameId])
    {
      LoadCovers(Model(), vacated, frameId, pageId, data);
      if pages[frameId] == null {
        var blank := new Page();
        pages := pages[frameId := blank];
      }
      page := pages[frameId];
      Load(page, pageId, data);
      pageTable := pageTable[pageId := frameId];
      replacer.Pin(frameId);
      forall g | 0 <= g < |pages| && g != frameId ensures FrameOf(pages[g]) == old(FrameOf(pages[g])) {
        assert pages[g] == old(pages[g]) && pages[g] != pages[frameId];
      }
      FramesBut(frameId);
    }

    /** The page object takes the page, clean and pinned once. */
    static method Load(page: Page, pageId: int, data: PageBytes)
      modifies page`data, page`pageId, page`dirty, page`pinCount
      ensures FrameOf(page) == Resident(pageId, data, false, 1)
    {
      page.Reset();
      page.pageId := pageId;
      page.data := data;
      page.Pin();
    }

    /** The state change of pinning a resident page. */
    method PinResident(frameId: nat)
      requires Valid() && frameId < poolSize && pages[frameId] != null
      modifies replacer`inReplacer, PageAt(frameId)`pinCount
      ensures replacer.Valid()
      ensures var fr := old(FrameOf(pages[frameId])); Model() == old(Model()).With(frameId, fr.(pins := fr.pins + 1))
      ensures replacer.inReplacer == old(replacer.inReplacer)[frameId := false]
    {
      var page := pages[frameId];
      page.Pin();
      replacer.Pin(frameId);
      OnlyFrame(frameId);
    }

    /** The state change of fetching a page that is not resident. */
    method ReadIn(pageId: int) returns (page: Page?, frameId: nat)
      requires Valid()
      modifies this, replacer, disk`blocks, PageSet()`data, PageSet()`pageId, PageSet()`dirty, PageSet()`pinCount
      ensures |pages| == poolSize && replacer.Valid() && fresh(PageSet() - old(PageSet()))
      ensures page == null <==> old(Seen()).Full()
      ensures page == null ==> Model() == old(Model()) && pages == old(pages)
      ensures page != null ==> frameId == old(NextFrame()) < poolSize && !old(Model()).Pinned(frameId)
      ensures page != null ==>
                var q := Vacated(old(Model()), frameId); Model() == q.Loaded(frameId, pageId, q.Block(pageId))
      ensures if page != null then Placed() && page == pages[frameId] else replacer.State() == old(replacer.State())
    {
      hide Pool.Inv, Pool.View, Pool.Pins, Pool.Unsaved, Pool.Evicted, Pool.Loaded, Vacated, NextFrame;
      hide Seen, Swept, LayeredClock.State, ClockState.AfterPin;
      ghost var m := Model();
      PagesDistinct();
      var ok;
      ok, frameId := TakeFrame();
      if !ok {
        return null, frameId;
      }
      var data := disk.ReadPage(pageId);
      page := Install(frameId, pageId, data, Vacated(m, frameId));
    }

    /** The state change of placing a page with a fresh id. */
    method Create() returns (page: Page?, pageId: nat, frameId: nat)
      requires Valid()
      modifies this, replacer, disk, PageSet()`data, PageSet()`pageId, PageSet()`dirty, PageSet()`pinCount
      ensures |pages| == poolSize && replacer.Valid() && fresh(PageSet() - old(PageSet()))
      ensures page == null <==> old(Seen()).Full()
      ensures page == null ==> Model() == old(Model()) && pages == old(pages)
      ensures page != null ==> frameId == old(NextFrame()) < poolSize && !old(Model()).Pinned(frameId)
      ensures page != null ==> pageId == old(disk.nextPageId) && page.data == ZeroPage() && !page.dirty
      ensures page != null ==>
                Model() == Vacated(old(Model()), frameId).Allocated().Loaded(frameId, pageId, ZeroPage())
      ensures if page != null then Placed() && page == pages[frameId] else replacer.State() == old(replacer.State())
    {
      hide Pool.Inv, Pool.View, Pool.Pins, Pool.Unsaved, Pool.Evicted, Pool.Loaded, Vacated, NextFrame;
      hide Seen, Swept, LayeredClock.State, ClockState.AfterPin;
      ghost var m := Model();
      PagesDistinct();
      var ok;
      pageId := 0;
      ok, frameId := TakeFrame();
      if !ok {
        return null, pageId, frameId;
      }
      ghost var taken := Frames();
      pageId := disk.AllocPage();
      assert Frames() == taken;
      page := Install(frameId, pageId, ZeroPage(), Vacated(m, frameId).Allocated());
    }

    method FetchHit(pageId: int) returns (page: Page)
      requires Valid() && pageId in pageTable
      modifies replacer`inReplacer, PageSet()`pinCount
      ensures Valid() && page == Object(pageId)
      ensures Seen() == old(Seen()).Pin(pageId) && Unsaved() == old(Unsaved())
      ensures page.data == old(Seen()).view[pageId]
      ensures replacer.inReplacer == old(replacer.inReplacer)[pageTable[pageId] := false]
      ensures Handles() == old(Handles())[pageId := page]
    {
      hide Pool.Inv, Pool.View, Pool.Pins, Pool.Unsaved, Pool.With, LayeredClock.State, Handles;
      ghost var m := Model();
      ResidentBytes(m, pageId);
      PinKeeps(m, pageId);
      var frameId := pageTable[pageId];
      page := pages[frameId];
      assert m.Lookup(pageId) == FrameOf(page);
      HandlePages();
      PinResident(frameId);
      HandlesAre(old(Handles())[pageId := page]);
    }

    /** The pool's own view of itself, in terms of its model. */
    lemma SeenInModel()
      requires Valid()
      ensures Model().Inv() && |pages| == |Model().frames| == poolSize == replacer.frameCount && replacer.Valid()
      ensures Seen() == Model().AsStore() && Unsaved() == Model().Unsaved() && Handles().Keys == Model().Pins().Keys
      ensures ViewLeft() == if NextFrame() < poolSize then Model().ViewWithout(NextFrame()) else Model().View()
    {
    }

    /** A pool whose model and page objects are those of before is the pool of before. */
    lemma Unmoved(h: map<int, Page>, m: Pool, oldPages: seq<Page?>)
      requires m.Inv() && Model() == m && pages == oldPages && |pages| == poolSize == replacer.frameCount
      requires replacer.Valid() && h.Keys == m.Pins().Keys
      requires forall i :: i in h ==> i in m.table && m.table[i] < |oldPages| && oldPages[m.table[i]] == h[i]
      ensures Valid() && Handles() == h && Seen() == m.AsStore() && Unsaved() == m.Unsaved()
    {
      HandlesAre(h);
    }

    lemma Broken()
      requires !Model().Inv()
      ensures !Valid()
    {
    }

    /** What loading an allocated page into frame `f` of the pool `m` has made of it. */
    lemma Missed(h: map<int, Page>, m: Pool, oldPages: seq<Page?>, f: nat, id: int)
      requires m.Inv() && f < |m.frames| == |oldPages| == poolSize && !m.Pinned(f) && id !in m.table && 0 <= id < m.next
      requires |pages| == poolSize == replacer.frameCount && replacer.Valid() && pages[f] != null
      requires forall g :: 0 <= g < poolSize && g != f ==> pages[g] == oldPages[g]
      requires Model() == Vacated(m, f).Loaded(f, id, Vacated(m, f).Block(id))
      requires h.Keys == m.Pins().Keys
      requires forall i :: i in h ==> i in m.table && m.table[i] < |oldPages| && oldPages[m.table[i]] == h[i]
      ensures Valid() && id in pageTable && Object(id) == pages[f] && pages[f].data == m.View()[id]
      ensures Seen().pins == m.Pins()[id := 1] && Seen().next == m.next && Seen().view == m.ViewWithout(f)
      ensures m.Synced() ==> Seen().view == m.View() && Unsaved() == m.Unsaved()
      ensures Handles() == h[id := pages[f]]
    {
      hide Pool.Inv, Pool.View, Pool.Pins, Pool.Unsaved, Pool.Evicted, Pool.ViewWithout, Vacated;
      FetchMissKeeps(m, f, id);
      ResidentBytes(Model(), id);
      assert pageTable[id] == f && Model().Lookup(id) == FrameOf(pages[f]);
      HandlesKept(h, m, oldPages, f, id);
    }

    /** What placing a new page in frame `f` of the pool `m` has made of it. */
    lemma Created(h: map<int, Page>, m: Pool, oldPages: seq<Page?>, f: nat)
      requires m.Inv() && f < |m.frames| == |oldPages| == poolSize && !m.Pinned(f) && !m.AsStore().Full()
      requires |pages| == poolSize == replacer.frameCount && replacer.Valid() && pages[f] != null
      requires forall g :: 0 <= g < poolSize && g != f ==> pages[g] == oldPages[g]
      requires Model() == Vacated(m, f).Allocated().Loaded(f, m.next, ZeroPage())
      requires h.Keys == m.Pins().Keys
      requires forall i :: i in h ==> i in m.table && m.table[i] < |oldPages| && oldPages[m.table[i]] == h[i]
      ensures Valid() && m.next in pageTable && Object(m.next) == pages[f] && OnDisk(m.next) == ZeroPage()
      ensures Seen().pins == m.Pins()[m.next := 1] && Seen().next == m.next + 1 && Seen().capacity == |m.frames|
      ensures Seen().view == m.ViewWithout(f)[m.next := ZeroPage()]
      ensures m.Synced() ==> Seen() == m.AsStore().New().0 && Unsaved() == m.Unsaved()
      ensures Handles() == h[m.next := pages[f]]
    {
      hide Pool.Inv, Pool.View, Pool.Pins, Pool.Unsaved, Pool.Evicted, Pool.ViewWithout, Vacated;
      NewPageKeeps(m, f);
      assert pageTable[m.next] == f;
      HandlesKept(h, m, oldPages, f, m.next);
    }

    /** Fetching a page that is not resident; the structure survives exactly if the id has been allocated. */
    method FetchMiss(pageId: int) returns (page: Page?)
      requires Valid() && pageId !in pageTable
      modifies this, replacer, disk`blocks, PageSet()`data, PageSet()`pageId, PageSet()`dirty, PageSet()`pinCount
      ensures fresh(PageSet() - old(PageSet()))
      ensures page == null <==> old(Seen()).Full()
      ensures page == null ==> Model() == old(Model())
      ensures if page != null then Placed() && page == pages[old(NextFrame())] else replacer.State() == old(replacer.State())
      ensures Valid() <==> page == null || old(Seen()).Allocated(pageId)
      ensures page != null && Valid() ==> pageId in pageTable && page == Object(pageId)
      ensures page != null && Valid() ==> Seen().pins == old(Seen()).pins[pageId := 1] && Seen().next == old(Seen()).next
      ensures page != null && Valid() ==> Seen().view == old(ViewLeft()) && page.data == old(Seen()).view[pageId]
      ensures page != null && Valid() && old(Synced()) ==> Seen().view == old(Seen()).view && Unsaved() == old(Unsaved())
      ensures Valid() ==> Handles() == if page == null then old(Handles()) else old(Handles())[pageId := page]
      ensures page != null && !Valid() ==>
                var f := old(NextFrame());
                f < poolSize && Model() == Vacated(old(Model()), f).Loaded(f, pageId, ZeroPage())
    {
      hide Valid, Seen, Unsaved, Handles, Object, ViewLeft, NextFrame, Vacated, Swept, LayeredClock.State;
      hide Pool.Inv, Pool.View, Pool.Pins, Pool.Unsaved, Pool.Loaded, Pool.ViewWithout;
      ghost var m, h := Model(), Handles();
      SeenInModel();
      HandlePages();
      var frameId;
      page, frameId := ReadIn(pageId);
      if page == null {
        Unmoved(h, m, old(pages));
      } else if 0 <= pageId < m.next {
        Missed(h, m, old(pages), frameId, pageId);
      } else {
        UnallocatedMiss(m, frameId, pageId);
        Broken();
      }
    }

    /**
     * For an allocated id the fetch of the plain store, if nothing was at risk, and in any case a pin on the page with
     * its bytes. An id not allocated yet is loaded as well, and breaks the structure.
     */
    method FetchPage(pageId: int) returns (page: Page?)
      requires Valid()
      modifies this, replacer, disk`blocks, PageSet()`data, PageSet()`pageId, PageSet()`dirty, PageSet()`pinCount
      ensures fresh(PageSet() - old(PageSet()))
      ensures page == null <==> pageId !in old(Seen()).pins && old(Seen()).Full()
      ensures page == null ==> Model() == old(Model()) && Valid() && Seen() == old(Seen())
      ensures if page == null then replacer.State() == old(replacer.State())
              else if pageId in old(pageTable) then
                pages == old(pages) && replacer.State() == old(replacer.State().AfterPin(pageTable[pageId]))
              else Placed() && page == pages[old(NextFrame())]
      ensures Valid() <==> page == null || old(Seen()).Allocated(pageId)
      ensures page != null && Valid() ==> pageId in pageTable && page == Object(pageId)
      ensures page != null && Valid() ==> Seen().pins == old(Seen()).Pin(pageId).pins && Seen().next == old(Seen()).next
      ensures page != null && Valid() ==> page.data == old(Seen()).view[pageId]
      ensures page != null && Valid() ==>
                Seen().view == if pageId in old(pageTable) then old(Seen()).view else old(ViewLeft())
      ensures Valid() && old(Synced()) ==> Unsaved() == old(Unsaved())
      ensures Valid() && old(Synced()) && old(Seen()).Allocated(pageId) ==>
                (Seen(), if page == null then NoPage else PageStore.Page(pageId, page.data)) == old(Seen()).Fetch(pageId)
      ensures Valid() ==> Handles() == if page == null then old(Handles()) else old(Handles())[pageId := page]
      ensures page != null && !Valid() ==>
                var f := old(NextFrame());
                f < poolSize && Model() == Vacated(old(Model()), f).Loaded(f, pageId, ZeroPage())
    {
      hide Pool.Inv, Pool.View, Pool.Pins, Pool.Unsaved, Pool.ViewWithout, Vacated, FirstNull;
      ResidentHasRoom(Model(), pageId);
      if pageId in pageTable {
        ResidentBytes(Model(), pageId);
        page := FetchHit(pageId);
      } else {
        page := FetchMiss(pageId);
      }
    }

    method NewPage() returns (page: Page?, pageId: nat)
      requires Valid()
      modifies this, replacer, disk, PageSet()`data, PageSet()`pageId, PageSet()`dirty, PageSet()`pinCount
      ensures Valid() && fresh(PageSet() - old(PageSet()))
      ensures page == null <==> old(Seen()).Full()
      ensures page == null ==> Model() == old(Model())
      ensures if page != null then Placed() && page == pages[old(NextFrame())] else replacer.State() == old(replacer.State())
      ensures page != null ==> pageId == old(Seen()).next && pageId in pageTable && page == Object(pageId)
      ensures page != null ==>
                var f := old(NextFrame()); Model() == Vacated(old(Model()), f).Allocated().Loaded(f, pageId, ZeroPage())
      ensures page != null ==> Seen().pins == old(Seen()).pins[pageId := 1] && Seen().next == pageId + 1
      ensures Seen().capacity == old(Seen()).capacity
      ensures page != null ==> Seen().view == old(ViewLeft())[pageId := ZeroPage()] && page.data == ZeroPage()
      ensures page != null ==> !page.dirty && OnDisk(pageId) == ZeroPage()
      ensures old(Synced()) ==> Unsaved() == old(Unsaved())
      ensures old(Synced()) ==>
                (Seen(), if page == null then NoPage else PageStore.Page(pageId, page.data)) == old(Seen()).New()
      ensures Handles() == if page == null then old(Handles()) else old(Handles())[pageId := page]
    {
      hide Valid, Seen, Unsaved, Handles, Object, ViewLeft, NextFrame, OnDisk, Vacated, Swept, LayeredClock.State;
      hide Pool.Inv, Pool.View, Pool.Pins, Pool.Unsaved, Pool.Loaded, Pool.ViewWithout, Pool.Evicted;
      ghost var m, h := Model(), Handles();
      SeenInModel();
      HandlePages();
      var frameId;
      page, pageId, frameId := Create();
      if page == null {
        Unmoved(h, m, old(pages));
      } else {
        Created(h, m, old(pages), frameId);
      }
    }

    /** A client changing the bytes of a page it holds a pin on. */
    method WriteBytes(page: Page, ghost pageId: int, data: PageBytes)
      requires Valid() && pageId in Handles() && page == Handles()[pageId]
      modifies page`data
      ensures Valid() && page.data == data
      ensures Seen() == old(Seen()).Write(pageId, data).0
      ensures Unsaved() == old(Unsaved()) - {pageId} +
                           (if !page.dirty && data != OnDisk(pageId) then {pageId} else {})
      ensures Handles() == old(Handles())
    {
      hide Pool.Inv, Pool.View, Pool.Pins, Pool.Unsaved;
      ghost var m := Model();
      HandlePages();
      ResidentBytes(m, pageId);
      OverwriteKeeps(m, pageId, data);
      ghost var f := pageTable[pageId];
      assert m.Lookup(pageId) == FrameOf(page) && m.evictable[f := page.pinCount == 0] == m.evictable;
      page.data := data;
      OnlyFrame(f);
      assert Model() == m.With(f, m.Lookup(pageId).(data := data));
      HandlesAre(old(Handles()));
    }
  }

  /** The page of another frame survives the loading of a page. */
  lemma StaysResident(m: Pool, f: nat, id: int, newId: int, data: PageBytes)
    requires m.Inv() && f < |m.frames| == |m.evictable| && id in m.table && m.table[id] != f && newId !in m.table
    ensures var table := Vacated(m, f).Allocated().Loaded(f, newId, data).table; id in table && table[id] == m.table[id]
  {
    assert m.EntryOk(id) && m.FrameOk(f);
  }

  /** Releasing a page touches no other frame of the replacer. */
  method ReleaseUsed(pool: BufferPoolManager, id: int, isDirty: bool, ghost g: nat)
    requires pool.Valid() && pool.Stale(g) && id in pool.Seen().pins && pool.Seen().pins[id] == 1
    modifies pool.replacer, pool.PageSet()`pinCount, pool.PageSet()`dirty
    ensures pool.Valid() && pool.Stale(g) && id in pool.pageTable && pool.pageTable[id] < |pool.replacer.useBits|
    ensures pool.replacer.useBits[pool.pageTable[id]]
  {
    hide BufferPoolManager.Seen, Pool.Inv, Pool.Pins;
    pool.PinnedResident(id);
    pool.PinnedElsewhere(g, id);
    var _ := pool.UnpinPage(id, isDirty);
  }

  /** A page just used stays in the pool when a new page has to find room, as long as some frame is ready to go. */
  method ReleaseAndCreate(pool: BufferPoolManager, id: int, isDirty: bool, ghost g: nat) returns (page: Page?, newId: nat)
    requires pool.Valid() && pool.Stale(g) && forall f :: 0 <= f < pool.poolSize ==> pool.pages[f] != null
    requires id in pool.Seen().pins && pool.Seen().pins[id] == 1
    modifies pool, pool.replacer, pool.disk, pool.PageSet()
    ensures pool.Valid() && page != null && newId in pool.pageTable
    ensures id in pool.pageTable && pool.pageTable[id] == old(pool.pageTable)[id]
  {
    hide BufferPoolManager.Seen, BufferPoolManager.NextFrame, Pool.Inv, Pool.Pins, Vacated, Pool.Loaded, BufferPoolManager.Handles;
    hide BufferPoolManager.Synced, BufferPoolManager.ViewLeft, BufferPoolManager.Unsaved, BufferPoolManager.Stale;
    hide BufferPoolManager.Placed;
    ReleaseUsed(pool, id, isDirty, g);
    pool.UsedFrameSpared(g);
    pool.RoomFor(g);
    ghost var m, f := pool.Model(), pool.NextFrame();
    page, newId := pool.NewPage();
    StaysResident(m, f, id, newId, ZeroPage());
  }

  lemma LeftAtRisk(pool: BufferPoolManager, id: int, data: PageBytes)
    requires pool.Valid() && pool.poolSize == 1 && !pool.Seen().Full() && id in pool.pageTable
    requires pool.Seen().view == map[id := data] && pool.OnDisk(id) == ZeroPage()
    requires id in pool.Unsaved() <==> data != ZeroPage()
    ensures pool.ViewLeft() == map[id := ZeroPage()]
  {
    hide Pool.Inv, Pool.View, Pool.Pins, Pool.Unsaved, FirstNull;
    pool.NextFrameExists();
    ResidentBytes(pool.Model(), id);
  }

  /** A new page, changed and then released as clean, in a pool of one frame: the next eviction would lose the change. */
  method ChangeAndRelease(pool: BufferPoolManager, data: PageBytes)
    requires pool.Valid() && pool.Seen() == Store(map[], map[], 0, 1) && pool.Unsaved() == {}
    modifies pool, pool.replacer, pool.disk, pool.PageSet()
    ensures pool.Valid() && fresh(pool.PageSet() - old(pool.PageSet()))
    ensures pool.Seen() == Store(map[0 := data], map[], 1, 1) && pool.ViewLeft() == map[0 := ZeroPage()]
  {
    hide BufferPoolManager.Valid, BufferPoolManager.Seen, BufferPoolManager.Unsaved, BufferPoolManager.Handles;
    hide BufferPoolManager.ViewLeft, BufferPoolManager.NextFrame, BufferPoolManager.Model, BufferPoolManager.Object;
    hide BufferPoolManager.Placed, BufferPoolManager.Offered, LayeredClock.State;
    pool.PinnedResident(0);
    assert pool.Synced();
    var page, id := pool.NewPage();
    pool.HandleInPool(id);
    pool.WriteBytes(page, id, data);
    ReleaseClean(pool, id, data);
  }

  method ReleaseClean(pool: BufferPoolManager, id: int, data: PageBytes)
    requires pool.Valid() && pool.poolSize == pool.Seen().capacity == 1
    requires pool.Seen().pins == map[id := 1] && pool.Seen().view == map[id := data]
    requires pool.OnDisk(id) == ZeroPage() && pool.Unsaved() == if data != ZeroPage() then {id} else {}
    modifies pool.replacer, pool.PageSet()
    ensures pool.Valid() && pool.Seen() == old(pool.Seen()).(pins := map[]) && pool.ViewLeft() == map[id := ZeroPage()]
  {
    hide BufferPoolManager.Valid, BufferPoolManager.Seen, BufferPoolManager.Unsaved, BufferPoolManager.Handles;
    hide BufferPoolManager.ViewLeft, BufferPoolManager.NextFrame, BufferPoolManager.Model, BufferPoolManager.Object;
    hide BufferPoolManager.Placed, BufferPoolManager.Offered, LayeredClock.State;
    pool.PinnedResident(id);
    ghost var s := pool.Seen();
    var ok := pool.UnpinPage(id, false);
    assert s.pins - {id} == map[];
    assert pool.OnDisk(id) == old(pool.OnDisk(id));
    LeftAtRisk(pool, id, data);
  }

  /** Another new page takes the frame, and the first one is fetched again. */
  method EvictAndFetch(pool: BufferPoolManager) returns (page: Page?)
    requires pool.Valid() && pool.Seen().pins == map[] && pool.Seen().next == pool.Seen().capacity == 1
    modifies pool, pool.replacer, pool.disk, pool.PageSet()
    ensures pool.Valid() && page != null && page.pageId == 0 && page.data == old(pool.ViewLeft())[0]
  {
    hide BufferPoolManager.Valid, BufferPoolManager.Seen, BufferPoolManager.Unsaved, BufferPoolManager.Handles;
    hide BufferPoolManager.Model, BufferPoolManager.ViewLeft, BufferPoolManager.NextFrame;
    ghost var s := pool.Seen();
    var _, other := pool.NewPage();
    var _ := pool.UnpinPage(other, false);
    assert s.pins[other := 1] - {other} == s.pins;
    page := pool.FetchPage(0);
  }

  /** A page changed, released as clean and evicted has lost the change: it is fetched as zeros. */
  method LoseUpdate(data: PageBytes) returns (pool: BufferPoolManager, page: Page?)
    ensures pool.Valid() && page != null && page.pageId == 0 && page.data == ZeroPage()
  {
    var disk := new DiskManager(0, map[]);
    pool := new BufferPoolManager(1, disk);
    assert pool.Seen() == Store(map[], map[], 0, 1) && pool.Unsaved() == {};
    ChangeAndRelease(pool, data);
    page := EvictAndFetch(pool);
  }
}
