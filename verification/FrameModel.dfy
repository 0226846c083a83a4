/** The contents of the buffer pool as a value, its structural invariant, and what each change to one frame does to it. */
module FrameModel {
  import opened Bytes
  import opened PageStore

  datatype Frame = Empty | Resident(id: int, data: PageBytes, dirty: bool, pins: nat)

  datatype Pool = Pool(frames: seq<Frame>, table: map<int, nat>, evictable: seq<bool>,
                       blocks: map<int, PageBytes>, next: nat)
  {
    /** What the disk holds for a page; a page never written reads as zeros. */
    ghost function Block(id: int): PageBytes {
      if id in blocks then blocks[id] else ZeroPage()
    }

    ghost predicate Pinned(f: nat) {
      f < |frames| && frames[f].Resident? && frames[f].pins > 0
    }

    ghost predicate FrameOk(f: nat)
      requires f < |frames| == |evictable|
    {
      && (frames[f].Resident? ==> 0 <= frames[f].id < next && frames[f].id in table && table[frames[f].id] == f)
      && (evictable[f] <==> frames[f].Resident? && frames[f].pins == 0)
    }

    ghost predicate EntryOk(id: int)
      requires id in table
    {
      0 <= id < next && table[id] < |frames| && frames[table[id]].Resident? && frames[table[id]].id == id
    }

    /**
     * The page table is a bijection onto the occupied frames, each of which carries its own page id, and the
     * replacer offers exactly the occupied frames that nobody has pinned.
     */
    ghost predicate Inv() {
      && |evictable| == |frames|
      && (forall f: nat :: f < |frames| ==> FrameOk(f))
      && (forall id :: id in table ==> EntryOk(id))
      && (forall id :: id in blocks ==> 0 <= id < next)
    }

    /** The frame of a page, empty if the page is not resident. */
    ghost function Lookup(id: int): Frame
      requires Inv()
    {
      if id in table then assert EntryOk(id); frames[table[id]] else Empty
    }

    /** The bytes a client should see for a page: its frame if it is resident, the disk otherwise. */
    ghost function Bytes(id: int): PageBytes
      requires Inv()
    {
      if Lookup(id).Resident? then Lookup(id).data else Block(id)
    }

    ghost function PinCount(id: int): nat
      requires Inv()
    {
      if Lookup(id).Resident? then Lookup(id).pins else 0
    }

    /** Eviction would not write the page back although the disk does not hold its bytes. */
    ghost predicate AtRisk(id: int)
      requires Inv()
    {
      Lookup(id).Resident? && !Lookup(id).dirty && Lookup(id).data != Block(id)
    }

    ghost function View(): map<int, PageBytes>
      requires Inv()
    {
      map id: int | 0 <= id < next :: Bytes(id)
    }

    ghost function Pins(): map<int, nat>
      requires Inv()
    {
      map id | id in table && PinCount(id) > 0 :: PinCount(id)
    }

    ghost function Unsaved(): set<int>
      requires Inv()
    {
      set id | id in table && AtRisk(id)
    }

    /** No page that could be evicted now would lose its bytes. */
    ghost predicate Synced()
      requires Inv()
    {
      Unsaved() <= Pins().Keys
    }

    /** What clients see once a frame has been emptied: its page falls back to the disk, which matters if it was at risk. */
    ghost function ViewWithout(f: nat): map<int, PageBytes>
      requires Inv() && f < |frames|
    {
      if frames[f].Resident? && frames[f].id in Unsaved() then View()[frames[f].id := Block(frames[f].id)] else View()
    }

    ghost function AsStore(): (s: Store)
      requires Inv()
      ensures s.Ok()
    {
      assert forall id :: id in table ==> EntryOk(id);
      Store(View(), Pins(), next, |frames|)
    }

    /** Writing a dirty page back and emptying its frame. */
    ghost function Evicted(f: nat): Pool
      requires f < |frames| == |evictable| && frames[f].Resident?
    {
      var id := frames[f].id;
      Pool(frames[f := Empty], table - {id}, evictable[f := false],
           if frames[f].dirty then blocks[id := frames[f].data] else blocks, next)
    }

    /** A page placed in a frame and pinned once. */
    ghost function Loaded(f: nat, id: int, data: PageBytes): Pool
      requires f < |frames| == |evictable|
    {
      Pool(frames[f := Resident(id, data, false, 1)], table[id := f], evictable[f := false], blocks, next)
    }

    ghost function Allocated(): Pool {
      this.(next := next + 1)
    }

    /** New contents for an occupied frame, the page staying the same. */
    ghost function With(f: nat, fr: Frame): Pool
      requires f < |frames| == |evictable| && fr.Resident?
    {
      this.(frames := frames[f := fr], evictable := evictable[f := fr.pins == 0])
    }

    ghost function Flushed(f: nat): Pool
      requires f < |frames| == |evictable| && frames[f].Resident?
    {
      if frames[f].dirty then
        With(f, frames[f].(dirty := false)).(blocks := blocks[frames[f].id := frames[f].data])
      else this
    }
  }

  /** Two pools that differ in one page only. */
  ghost predicate SameBut(p: Pool, q: Pool, id: int)
    requires p.Inv() && q.Inv()
  {
    && q.next == p.next
    && forall i :: i != id ==> q.Lookup(i) == p.Lookup(i) && q.Block(i) == p.Block(i)
  }

  lemma SameButView(p: Pool, q: Pool, id: int)
    requires p.Inv() && q.Inv() && SameBut(p, q, id) && 0 <= id < p.next
    ensures q.View() == p.View()[id := q.Bytes(id)]
  {
    forall i | 0 <= i < p.next && i != id ensures q.View()[i] == p.View()[i] {
      assert q.Lookup(i) == p.Lookup(i);
    }
  }

  lemma SameButPins(p: Pool, q: Pool, id: int)
    requires p.Inv() && q.Inv() && SameBut(p, q, id)
    ensures q.Pins() == if q.PinCount(id) > 0 then p.Pins()[id := q.PinCount(id)] else p.Pins() - {id}
  {
    var e := if q.PinCount(id) > 0 then p.Pins()[id := q.PinCount(id)] else p.Pins() - {id};
    forall i ensures i in q.Pins() <==> i in e {
      assert i in q.Pins() <==> q.PinCount(i) > 0;
      assert i in p.Pins() <==> p.PinCount(i) > 0;
      assert i != id ==> q.Lookup(i) == p.Lookup(i);
    }
    forall i | i in e ensures q.Pins()[i] == e[i] {
      assert i != id ==> q.Lookup(i) == p.Lookup(i);
    }
  }

  lemma SameButUnsaved(p: Pool, q: Pool, id: int)
    requires p.Inv() && q.Inv() && SameBut(p, q, id)
    ensures q.Unsaved() == p.Unsaved() - {id} + if q.AtRisk(id) then {id} else {}
  {
    forall i ensures i in q.Unsaved() <==> i in p.Unsaved() - {id} + if q.AtRisk(id) then {id} else {} {
      assert i in q.Unsaved() <==> q.AtRisk(i);
      assert i in p.Unsaved() <==> p.AtRisk(i);
      assert i != id ==> q.Lookup(i) == p.Lookup(i);
    }
  }

  lemma PinCounts(p: Pool)
    requires p.Inv()
    ensures forall id :: p.AsStore().PinCount(id) == p.PinCount(id)
  {
    forall id ensures p.AsStore().PinCount(id) == p.PinCount(id) {
      assert id in p.Pins() <==> p.PinCount(id) > 0;
    }
  }

  lemma EvictInv(p: Pool, f: nat)
    requires p.Inv() && f < |p.frames| && p.frames[f].Resident?
    ensures p.Evicted(f).Inv() && SameBut(p, p.Evicted(f), p.frames[f].id)
  {
    var q, victim := p.Evicted(f), p.frames[f].id;
    assert p.FrameOk(f);
    forall g: nat | g < |q.frames| ensures q.FrameOk(g) {
      assert p.FrameOk(g);
    }
    forall id | id in q.table ensures q.EntryOk(id) && q.table[id] != f {
      assert p.EntryOk(id);
    }
  }

  /** Emptying an unpinned frame keeps what clients see exactly when the frame's bytes are safe. */
  lemma EvictKeeps(p: Pool, f: nat)
    requires p.Inv() && f < |p.frames| && p.frames[f].Resident? && p.frames[f].pins == 0
    ensures p.Evicted(f).Inv() && p.Evicted(f).Pins() == p.Pins()
    ensures p.Evicted(f).View() == p.ViewWithout(f)
    ensures p.Evicted(f).View() == p.View() <==> p.frames[f].id !in p.Unsaved()
    ensures p.Evicted(f).Unsaved() == p.Unsaved() - {p.frames[f].id}
  {
    var q, victim := p.Evicted(f), p.frames[f].id;
    EvictInv(p, f);
    assert p.FrameOk(f) && q.Lookup(victim) == Empty && p.Lookup(victim) == p.frames[f];
    SameButView(p, q, victim);
    SameButPins(p, q, victim);
    SameButUnsaved(p, q, victim);
    assert victim !in p.Pins();
    assert q.View()[victim] == q.Block(victim) && p.View()[victim] == p.frames[f].data;
  }

  lemma LoadKeeps(p: Pool, f: nat, id: int)
    requires p.Inv() && f < |p.frames| && p.frames[f] == Empty && id !in p.table && 0 <= id < p.next
    ensures var q := p.Loaded(f, id, p.Block(id));
            q.Inv() && q.View() == p.View() && q.Pins() == p.Pins()[id := 1] && q.Unsaved() == p.Unsaved()
  {
    var q := p.Loaded(f, id, p.Block(id));
    forall g: nat | g < |q.frames| ensures q.FrameOk(g) {
      assert p.FrameOk(g);
    }
    forall i | i in q.table ensures q.EntryOk(i) && (i != id ==> q.table[i] != f) {
      assert i != id ==> p.EntryOk(i);
    }
    assert q.Lookup(id) == Resident(id, p.Block(id), false, 1) && p.Lookup(id) == Empty;
    SameButView(p, q, id);
    SameButPins(p, q, id);
    SameButUnsaved(p, q, id);
    assert p.View()[id] == p.Block(id);
  }

  lemma AllocateKeeps(p: Pool)
    requires p.Inv()
    ensures p.Allocated().Inv()
    ensures var q := p.Allocated();
            q.View() == p.View()[p.next := ZeroPage()] && q.Pins() == p.Pins() && q.Unsaved() == p.Unsaved()
    ensures p.next !in p.table && p.Block(p.next) == ZeroPage()
  {
    var q := p.Allocated();
    forall g: nat | g < |q.frames| ensures q.FrameOk(g) {
      assert p.FrameOk(g);
    }
    forall i | i in q.table ensures q.EntryOk(i) && i < p.next {
      assert p.EntryOk(i) && p.FrameOk(p.table[i]);
    }
    assert forall i :: q.Lookup(i) == p.Lookup(i) && q.Block(i) == p.Block(i);
    SameTables(p, q);
  }

  lemma SameTables(p: Pool, q: Pool)
    requires p.Inv() && q.Inv()
    requires forall i :: q.Lookup(i) == p.Lookup(i) && q.Block(i) == p.Block(i)
    ensures q.Pins() == p.Pins() && q.Unsaved() == p.Unsaved()
  {
    forall i ensures (i in q.Pins() <==> i in p.Pins()) && (i in q.Unsaved() <==> i in p.Unsaved()) {
      assert q.Lookup(i) == p.Lookup(i);
    }
    assert q.Pins().Keys == p.Pins().Keys;
    forall i | i in p.Pins() ensures q.Pins()[i] == p.Pins()[i] {
      assert q.Lookup(i) == p.Lookup(i);
    }
  }

  lemma ResidentBytes(p: Pool, id: int)
    requires p.Inv() && (id in p.table || id in p.Pins())
    ensures id in p.table && |p.evictable| == |p.frames| && p.table[id] < |p.frames|
    ensures 0 <= id < p.next && p.Lookup(id).Resident? && p.Lookup(id).id == id && p.View()[id] == p.Bytes(id) == p.Lookup(id).data
    ensures id in p.Pins() <==> p.PinCount(id) > 0
    ensures id in p.Pins() ==> p.Pins()[id] == p.PinCount(id)
    ensures p.PinCount(id) == p.Lookup(id).pins
    ensures p.AtRisk(id) == (id in p.Unsaved())
    ensures p.evictable[p.table[id]] == (p.Lookup(id).pins == 0)
  {
    assert p.EntryOk(id) && p.FrameOk(p.table[id]);
  }

  /** Changing the contents of a page's own frame changes nothing else. */
  lemma WithKeeps(p: Pool, id: int, fr: Frame)
    requires p.Inv() && id in p.table && fr.Resident? && fr.id == id
    ensures var q := p.With(p.table[id], fr);
            q.Inv() && SameBut(p, q, id) && q.Lookup(id) == fr && q.Block(id) == p.Block(id)
            && 0 <= id < p.next
  {
    assert p.EntryOk(id);
    var f := p.table[id];
    var q := p.With(f, fr);
    forall g: nat | g < |q.frames| ensures q.FrameOk(g) {
      assert p.FrameOk(g);
    }
    forall i | i in q.table ensures q.EntryOk(i) && (i != id ==> q.table[i] != f) {
      assert p.EntryOk(i);
    }
  }

  lemma PinKeeps(p: Pool, id: int)
    requires p.Inv() && id in p.table
    ensures var fr := p.Lookup(id);
            var q := p.With(p.table[id], fr.(pins := fr.pins + 1));
            q.Inv() && q.AsStore() == p.AsStore().Pin(id) && q.Unsaved() == p.Unsaved()
  {
    hide Pool.Inv, Pool.View, Pool.Pins, Pool.Unsaved, Pool.Lookup, SameBut;
    PinCounts(p);
    ResidentBytes(p, id);
    var fr := p.Lookup(id);
    fr := fr.(pins := fr.pins + 1);
    var q := p.With(p.table[id], fr);
    WithKeeps(p, id, fr);
    ResidentBytes(q, id);
    SameButView(p, q, id);
    SameButPins(p, q, id);
    SameButUnsaved(p, q, id);
  }

  lemma UnpinKeeps(p: Pool, id: int, dirty: bool)
    requires p.Inv() && id in p.Pins()
    ensures id in p.table && p.Lookup(id).Resident? && p.Lookup(id).pins > 0
    ensures var fr := p.Lookup(id);
            var q := p.With(p.table[id], fr.(pins := fr.pins - 1, dirty := fr.dirty || dirty));
            q.Inv() && q.AsStore() == p.AsStore().Unpin(id).0
            && q.Unsaved() == if dirty then p.Unsaved() - {id} else p.Unsaved()
  {
    hide Pool.Inv, Pool.View, Pool.Pins, Pool.Unsaved, Pool.Lookup, SameBut;
    PinCounts(p);
    ResidentBytes(p, id);
    var fr := p.Lookup(id);
    fr := fr.(pins := fr.pins - 1, dirty := fr.dirty || dirty);
    var q := p.With(p.table[id], fr);
    WithKeeps(p, id, fr);
    ResidentBytes(q, id);
    SameButView(p, q, id);
    SameButPins(p, q, id);
    SameButUnsaved(p, q, id);
  }

  lemma FlushKeeps(p: Pool, id: int)
    requires p.Inv() && id in p.table
    ensures var q := p.Flushed(p.table[id]);
            && q.Inv() && q.AsStore() == p.AsStore() && q.Unsaved() == p.Unsaved()
            && q.table == p.table && SameBut(p, q, id) && !(q.Lookup(id).Resident? && q.Lookup(id).dirty)
  {
    ResidentBytes(p, id);
    if p.Lookup(id).dirty {
      FlushDirty(p, id);
    }
  }

  lemma FlushDirty(p: Pool, id: int)
    requires p.Inv() && id in p.table && p.Lookup(id).Resident? && p.Lookup(id).dirty
    ensures var q := p.Flushed(p.table[id]);
            && q.Inv() && q.AsStore() == p.AsStore() && q.Unsaved() == p.Unsaved()
            && q.table == p.table && SameBut(p, q, id) && !(q.Lookup(id).Resident? && q.Lookup(id).dirty)
  {
    hide Pool.Inv, Pool.View, Pool.Pins, Pool.Unsaved, Pool.Lookup;
    ResidentBytes(p, id);
    LookupIs(p, id);
    var fr := p.Lookup(id);
    var r := p.With(p.table[id], fr.(dirty := false));
    WithKeeps(p, id, fr.(dirty := false));
    var q := p.Flushed(p.table[id]);
    assert q == r.(blocks := p.blocks[id := fr.data]);
    SameContents(r, q, id);
    ResidentBytes(q, id);
    SameButView(p, q, id);
    SameButPins(p, q, id);
    SameButUnsaved(p, q, id);
    PinCounts(p);
    assert q.View() == p.View() && q.Pins() == p.Pins() && |q.frames| == |p.frames|;
  }

  lemma LookupIs(p: Pool, id: int)
    requires p.Inv() && id in p.table
    ensures p.table[id] < |p.frames| && p.frames[p.table[id]] == p.Lookup(id)
  {
    assert p.EntryOk(id);
  }

  lemma SameContents(r: Pool, q: Pool, id: int)
    requires r.Inv() && id in r.table && 0 <= id < r.next && r.Lookup(id).Resident?
    requires q == r.(blocks := r.blocks[id := r.Lookup(id).data])
    ensures q.Inv() && SameBut(r, q, id) && q.Lookup(id) == r.Lookup(id) && q.Block(id) == r.Lookup(id).data
  {
    forall g: nat | g < |q.frames| ensures q.FrameOk(g) {
      assert r.FrameOk(g);
    }
    forall i | i in q.table ensures q.EntryOk(i) {
      assert r.EntryOk(i);
    }
  }

  lemma OverwriteKeeps(p: Pool, id: int, data: PageBytes)
    requires p.Inv() && id in p.Pins()
    ensures var q := p.With(p.table[id], p.Lookup(id).(data := data));
            && q.Inv() && q.AsStore() == p.AsStore().Write(id, data).0
            && q.Unsaved() == p.Unsaved() - {id} + (if !p.Lookup(id).dirty && data != p.Block(id) then {id} else {})
  {
    PinCounts(p);
    var fr := p.Lookup(id).(data := data);
    var q := p.With(p.table[id], fr);
    WithKeeps(p, id, fr);
    SameButView(p, q, id);
    SameButPins(p, q, id);
    SameButUnsaved(p, q, id);
  }

  /** A frame made free for a new page. */
  ghost function Vacated(p: Pool, f: nat): Pool
    requires p.Inv() && f < |p.frames|
  {
    if p.frames[f].Resident? then p.Evicted(f) else p
  }

  /** Dropping a resident page that nobody has pinned. */
  lemma DropKeeps(p: Pool, id: int)
    requires p.Inv() && id in p.table && id !in p.Pins()
    ensures var f := p.table[id];
            && f < |p.frames| && p.frames[f].Resident? && p.frames[f].pins == 0 && p.frames[f].id == id
            && var q := p.Evicted(f);
            && q.Inv() && q.Pins() == p.Pins()
            && (p.Synced() ==> q.View() == p.View() && q.Unsaved() == p.Unsaved())
            && forall i :: i in p.Pins() ==> i in q.table && q.table[i] == p.table[i] != f
  {
    assert p.EntryOk(id) && !p.Pinned(p.table[id]);
    EvictKeeps(p, p.table[id]);
    PinnedStay(p, p.table[id]);
  }

  lemma LoadCovers(p: Pool, q: Pool, f: nat, id: int, data: PageBytes)
    requires f < |p.frames| == |p.evictable|
    requires p.(frames := p.frames[f := Empty]) == q
    ensures p.Loaded(f, id, data) == q.Loaded(f, id, data)
  {
    assert p.frames[f := Resident(id, data, false, 1)] == q.frames[f := Resident(id, data, false, 1)];
  }

  /** Fetching a page that is not resident into an unpinned frame. */
  lemma FetchMissKeeps(p: Pool, f: nat, id: int)
    requires p.Inv() && f < |p.frames| && !p.Pinned(f) && id !in p.table && 0 <= id < p.next
    ensures var q := Vacated(p, f);
            var r := q.Loaded(f, id, q.Block(id));
            && q.Inv() && r.Inv() && r.Pins() == p.Pins()[id := 1] && id !in p.Pins() && r.next == p.next
            && r.View() == p.ViewWithout(f) && r.Lookup(id).data == p.View()[id]
            && (p.Synced() ==> r.View() == p.View() && r.Unsaved() == p.Unsaved())
  {
    if p.frames[f].Resident? {
      EvictKeeps(p, f);
    }
    assert p.FrameOk(f);
    var q := Vacated(p, f);
    LoadKeeps(q, f, id);
    if p.Synced() {
      assert p.frames[f].Resident? ==> p.Lookup(p.frames[f].id) == p.frames[f];
      assert q.View()[id] == q.Block(id);
    }
  }

  /** Emptying an unpinned frame moves no pinned page. */
  lemma PinnedStay(p: Pool, f: nat)
    requires p.Inv() && f < |p.frames| && !p.Pinned(f)
    ensures forall id :: id in p.Pins() ==>
              id in p.table && id in Vacated(p, f).table && Vacated(p, f).table[id] == p.table[id] != f
  {
    forall id | id in p.Pins()
      ensures id in p.table && id in Vacated(p, f).table && Vacated(p, f).table[id] == p.table[id] != f
    {
      assert p.EntryOk(id) && p.FrameOk(f) && p.FrameOk(p.table[id]);
    }
  }

  /** Allocating a page id and placing the zeroed page in an unpinned frame. */
  lemma NewPageKeeps(p: Pool, f: nat)
    requires p.Inv() && f < |p.frames| && !p.Pinned(f) && !p.AsStore().Full()
    ensures p.next !in p.table
    ensures var r := Vacated(p, f).Allocated().Loaded(f, p.next, ZeroPage());
            && r.Inv() && r.Pins() == p.Pins()[p.next := 1] && r.next == p.next + 1
            && r.View() == p.ViewWithout(f)[p.next := ZeroPage()] && r.Block(p.next) == ZeroPage()
            && (p.Synced() ==> r.Synced() && r.AsStore() == p.AsStore().New().0 && r.Unsaved() == p.Unsaved())
  {
    if p.frames[f].Resident? {
      EvictKeeps(p, f);
    }
    assert p.FrameOk(f);
    AllocateKeeps(p);
    var v := Vacated(p, f);
    AllocateKeeps(v);
    LoadKeeps(v.Allocated(), f, p.next);
    if p.Synced() {
      assert p.frames[f].Resident? ==> p.Lookup(p.frames[f].id) == p.frames[f];
    }
  }

  ghost function PinnedBelow(p: Pool, n: nat): set<int>
    requires p.Inv() && n <= |p.frames|
  {
    set id | id in p.table && p.table[id] < n && p.Pinned(p.table[id])
  }

  lemma NoneBelow(p: Pool)
    requires p.Inv()
    ensures PinnedBelow(p, 0) == {}
  {
  }

  lemma PinnedBelowStep(p: Pool, n: nat)
    requires p.Inv() && n < |p.frames|
    ensures PinnedBelow(p, n + 1) == PinnedBelow(p, n) + if p.Pinned(n) then {p.frames[n].id} else {}
    ensures p.Pinned(n) ==> p.frames[n].id !in PinnedBelow(p, n)
  {
    assert p.FrameOk(n);
    forall id | id in p.table ensures p.table[id] == n ==> id == p.frames[n].id {
      assert p.EntryOk(id);
    }
  }

  /** Distinct pinned pages occupy distinct pinned frames. */
  lemma {:induction false} PinnedPagesFillFrames(p: Pool, n: nat)
    requires p.Inv() && n <= |p.frames|
    ensures |PinnedBelow(p, n)| <= n
    ensures |PinnedBelow(p, n)| == n <==> forall f: nat :: f < n ==> p.Pinned(f)
  {
    hide PinnedBelow, Pool.Pinned, Pool.Inv;
    if n == 0 {
      NoneBelow(p);
    } else {
      PinnedPagesFillFrames(p, n - 1);
      PinnedBelowStep(p, n - 1);
    }
  }

  /** The pool is full, as its clients see it, exactly when every frame is occupied and pinned. */
  lemma FullIffAllPinned(p: Pool)
    requires p.Inv()
    ensures p.AsStore().Full() <==> forall f: nat :: f < |p.frames| ==> p.Pinned(f)
  {
    forall id ensures id in p.Pins() <==> id in PinnedBelow(p, |p.frames|) {
      assert id in p.table ==> p.EntryOk(id);
    }
    assert p.Pins().Keys == PinnedBelow(p, |p.frames|);
    PinnedPagesFillFrames(p, |p.frames|);
  }

  /** A resident page can be pinned, so the pool is not full unless it is pinned already. */
  lemma ResidentHasRoom(p: Pool, id: int)
    requires p.Inv()
    ensures id in p.table && id !in p.Pins() ==> !p.AsStore().Full()
    ensures id in p.Pins() ==> id in p.table
    ensures id in p.Pins() <==> p.PinCount(id) > 0
  {
    FullIffAllPinned(p);
    if id in p.table && id !in p.Pins() {
      assert p.EntryOk(id) && !p.Pinned(p.table[id]);
    }
  }

  /** An unpin leaves nothing at risk exactly unless it is the last one, clean, on a page whose bytes are only in memory. */
  lemma UnpinSyncs(p: Pool, id: int, dirty: bool)
    requires p.Inv() && p.Synced() && id in p.Pins()
    ensures var fr := p.Lookup(id);
            var q := p.With(p.table[id], fr.(pins := fr.pins - 1, dirty := fr.dirty || dirty));
            q.Inv() && (q.Synced() <==> dirty || id !in p.Unsaved() || p.Pins()[id] > 1)
  {
    UnpinKeeps(p, id, dirty);
  }

  /** The failing case as a run on a one-frame pool: create a page, change it, release it as clean, evict it. */
  lemma LostUpdate(data: PageBytes)
    requires data != ZeroPage()
    ensures var empty := Pool([Empty], map[], [false], map[], 0);
            var created := empty.Allocated().Loaded(0, 0, ZeroPage());
            var changed := created.With(0, created.frames[0].(data := data));
            var released := changed.With(0, changed.frames[0].(pins := 0));
            && released.Inv() && released.View()[0] == data
            && released.Evicted(0).Inv() && released.Evicted(0).View()[0] == ZeroPage()
  {
    var released := Pool([Resident(0, data, false, 0)], map[0 := 0], [true], map[], 1);
    assert released.FrameOk(0) && released.EntryOk(0);
    EvictInv(released, 0);
    assert released.Evicted(0).Lookup(0) == Empty;
  }

  /** Loading any page into an empty frame keeps the structure exactly when its id has been allocated. */
  lemma LoadInv(p: Pool, f: nat, id: int, data: PageBytes)
    requires p.Inv() && f < |p.frames| && p.frames[f] == Empty && id !in p.table
    ensures p.Loaded(f, id, data).Inv() <==> 0 <= id < p.next
  {
    var q := p.Loaded(f, id, data);
    if 0 <= id < p.next {
      forall g: nat | g < |q.frames| ensures q.FrameOk(g) {
        assert p.FrameOk(g);
      }
      forall i | i in q.table ensures q.EntryOk(i) && (i != id ==> q.table[i] != f) {
        assert i != id ==> p.EntryOk(i);
      }
    } else {
      assert !q.FrameOk(f);
    }
  }

  lemma UnallocatedMiss(p: Pool, f: nat, id: int)
    requires p.Inv() && f < |p.frames| && !p.Pinned(f) && !(0 <= id < p.next)
    ensures var q := Vacated(p, f); q.Block(id) == ZeroPage() && !q.Loaded(f, id, q.Block(id)).Inv()
  {
    if p.frames[f].Resident? {
      assert p.FrameOk(f);
      EvictKeeps(p, f);
    }
    var q := Vacated(p, f);
    assert id !in q.table by {
      assert id in q.table ==> q.EntryOk(id);
    }
    assert q.frames[f] == Empty;
    LoadInv(q, f, id, q.Block(id));
  }

  /** The failing case: a page fetched before its id is handed out ends up in two frames, one of them out of reach. */
  lemma TwoFramesOnePage(p: Pool, f: nat, g: nat)
    requires p.Inv() && f < |p.frames| && g < |p.frames| && f != g && p.frames[f] == p.frames[g] == Empty
    ensures var early := p.Loaded(f, p.next, p.Block(p.next));
            var late := early.Allocated().Loaded(g, p.next, ZeroPage());
            && late.frames[f].Resident? && late.frames[f].pins == 1 && late.frames[f].id == late.frames[g].id
            && late.table[p.next] == g && !late.Inv()
  {
    var late := p.Loaded(f, p.next, p.Block(p.next)).Allocated().Loaded(g, p.next, ZeroPage());
    assert !late.FrameOk(f);
  }
}
