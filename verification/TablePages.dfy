/** The page header of the table heap and what storing one tuple does to a page's bytes. */
module TablePages {
  import opened Bytes
  import opened Permutations
  import opened Records

  const SLOT_HEADER := 12
  const SLOT_ENTRY_SIZE := 8
  const MAX_SLOTS_PER_PAGE := (PAGE_SIZE - SLOT_HEADER) / (SLOT_ENTRY_SIZE + 32)

  function NextFree(page: PageBytes): Int32 {
    ReadInt(page, 4)
  }

  function SlotCount(page: PageBytes): Int32 {
    ReadInt(page, 8)
  }

  /** The header accounts for the tuples stored so far: one slot each, and their bytes end to end after the header. */
  ghost predicate Accounts(page: PageBytes, sizes: seq<nat>) {
    && SlotCount(page) == |sizes| <= MAX_SLOTS_PER_PAGE
    && NextFree(page) == SLOT_HEADER + Sum(sizes) <= PAGE_SIZE
    && NextFree(page) >= SLOT_HEADER
  }

  /** Writing an empty header. */
  function Format(page: PageBytes): PageBytes {
    Splice(Splice(page, 4, IntBytes(SLOT_HEADER)), 8, IntBytes(0))
  }

  /** Room for one more tuple, as the insertion tests it. */
  predicate Fits(page: PageBytes, size: nat) {
    SlotCount(page) < MAX_SLOTS_PER_PAGE && NextFree(page) + size + SLOT_ENTRY_SIZE <= PAGE_SIZE
  }

  /** The bytes of a tuple an insertion keeps. */
  function Kept(tuple: seq<Byte>): (kept: seq<Byte>)
    ensures |kept| <= PAGE_SIZE - SLOT_HEADER - 64 && kept <= tuple
    ensures |kept| == if |tuple| <= 4020 then |tuple| else 4020
  {
    var copySize := if |tuple| > PAGE_SIZE - SLOT_HEADER - 64 then PAGE_SIZE - SLOT_HEADER - 64 else |tuple|;
    tuple[..copySize]
  }

  /** A header of a heap page, with room for one more tuple. */
  ghost predicate Storable(page: PageBytes, size: nat) {
    0 <= SlotCount(page) && SLOT_HEADER <= NextFree(page) && Fits(page, size)
  }

  /** Slot entry, payload, free pointer and slot count, written in this order. */
  function Stored(page: PageBytes, tuple: seq<Byte>): (r: PageBytes)
    requires Storable(page, |tuple|)
  {
    var n, free := SlotCount(page), NextFree(page);
    var slotted := Splice(page, SLOT_HEADER + n * SLOT_ENTRY_SIZE, IntBytes(free) + IntBytes(|tuple|));
    var filled := Splice(slotted, free, tuple);
    Splice(Splice(filled, 4, IntBytes(free + |tuple|)), 8, IntBytes(n + 1))
  }

  /** Where the header of a page keeps its two counters, and what they account for. */
  lemma HeaderMeans(page: PageBytes, sizes: seq<nat>)
    requires Accounts(page, sizes)
    ensures page[4] as int + 256 * (page[5] as int) == 12 + Sum(sizes) && page[6] == page[7] == 0
    ensures page[8] == |sizes| <= 102 && page[9] == page[10] == page[11] == 0
  {
    LittleEndian(page, 4);
    LittleEndian(page, 8);
  }

  /** A page has room exactly while fewer than 102 tuples and less than the page's bytes are accounted for. */
  lemma RoomMeans(page: PageBytes, sizes: seq<nat>, size: nat)
    requires Accounts(page, sizes)
    ensures Fits(page, size) <==> |sizes| < 102 && 12 + Sum(sizes) + size + 8 <= 4096
  {
  }

  /** Two counters written side by side are both read back. */
  lemma CountersReadBack(page: PageBytes, free: Int32, count: Int32)
    ensures var r := Splice(Splice(page, 4, IntBytes(free)), 8, IntBytes(count)); ReadInt(r, 4) == free && ReadInt(r, 8) == count
  {
    var first := Splice(page, 4, IntBytes(free));
    ReadBack(page, 4, free);
    ReadElsewhere(first, 8, IntBytes(count), 4);
    ReadBack(first, 8, count);
  }

  lemma FormatAccounts(page: PageBytes)
    ensures Accounts(Format(page), [])
  {
    hide IntBytes, ReadInt, Splice;
    CountersReadBack(page, SLOT_HEADER, 0);
  }

  /** Formatting a page of zeros sets one byte. */
  lemma FormatMeans()
    ensures forall i :: 0 <= i < 4096 ==> Format(ZeroPage())[i] == if i == 4 then 12 else 0
  {
    assert IntBytes(12) == [12, 0, 0, 0] && IntBytes(0) == [0, 0, 0, 0];
  }

  lemma FormatFits(page: PageBytes, size: nat)
    requires size <= PAGE_SIZE - SLOT_HEADER - 64
    ensures Fits(Format(page), size)
  {
    hide IntBytes, ReadInt, Splice, Format;
    FormatAccounts(page);
  }

  lemma SumOfOneMore(sizes: seq<nat>, size: nat)
    ensures Sum(sizes + [size]) == Sum(sizes) + size
  {
    SumAppend(sizes, [size]);
    var one: seq<int> := [size];
    assert one[1..] == [];
  }

  /** Storing a tuple that fits keeps the header's accounts. */
  lemma StoredAccounts(page: PageBytes, sizes: seq<nat>, tuple: seq<Byte>)
    requires Accounts(page, sizes) && Storable(page, |tuple|)
    ensures Accounts(Stored(page, tuple), sizes + [|tuple|])
  {
    var n, free := SlotCount(page), NextFree(page);
    var slotted := Splice(page, SLOT_HEADER + n * SLOT_ENTRY_SIZE, IntBytes(free) + IntBytes(|tuple|));
    var filled := Splice(slotted, free, tuple);
    CountersReadBack(filled, free + |tuple|, n + 1);
    SumOfOneMore(sizes, |tuple|);
  }

  /** Nothing but the new slot, the new payload and the two counters changes on the page. */
  lemma StoredElsewhere(page: PageBytes, tuple: seq<Byte>, at: nat)
    requires Storable(page, |tuple|) && at < PAGE_SIZE
    requires !(4 <= at < SLOT_HEADER)
    requires var slot := SLOT_HEADER + SlotCount(page) * SLOT_ENTRY_SIZE; !(slot <= at < slot + SLOT_ENTRY_SIZE)
    requires !(NextFree(page) <= at < NextFree(page) + |tuple|)
    ensures Stored(page, tuple)[at] == page[at]
  {
  }

  /** The slot entry names the payload, as far as the payload has not been written over it. */
  lemma StoredSlot(page: PageBytes, tuple: seq<Byte>, k: nat)
    requires Storable(page, |tuple|) && k < 8
    requires var at := 12 + 8 * SlotCount(page) + k; !(NextFree(page) <= at < NextFree(page) + |tuple|)
    ensures Stored(page, tuple)[12 + 8 * SlotCount(page) + k]
            == if k < 4 then IntBytes(NextFree(page))[k] else IntBytes(|tuple|)[k - 4]
  {
  }

  /** The payload itself can be read where the free pointer was. */
  lemma StoredPayload(page: PageBytes, tuple: seq<Byte>)
    requires Storable(page, |tuple|)
    ensures var free := NextFree(page); Stored(page, tuple)[free..free + |tuple|] == tuple
  {
    hide IntBytes, ReadInt;
  }

  // ---- the pages of a heap together ----

  /** Every page of the heap has a header that accounts for the tuples stored on it. */
  ghost predicate AllAccount(view: map<int, PageBytes>, sizes: map<int, seq<nat>>) {
    forall p :: p in sizes ==> p in view && Accounts(view[p], sizes[p])
  }

  lemma AccountsInView(view: map<int, PageBytes>, sizes: map<int, seq<nat>>, p: int)
    requires AllAccount(view, sizes) && p in sizes
    ensures p in view && Accounts(view[p], sizes[p])
  {
  }

  /** The record ids handed out for the tuples stored so far. */
  ghost function IssuedFor(sizes: map<int, seq<nat>>): set<RID> {
    set p, k: nat | p in sizes && k < |sizes[p]| :: RID(p, k)
  }

  /** One more tuple on a page of the heap, or on a new page, gets a record id that was never handed out. */
  lemma AddTuple(view: map<int, PageBytes>, sizes: map<int, seq<nat>>, p: int, stored: PageBytes, before: seq<nat>, size: nat)
    requires AllAccount(view, sizes) && Accounts(stored, before + [size])
    requires if p in sizes then before == sizes[p] else p !in view && before == []
    ensures AllAccount(view[p := stored], sizes[p := before + [size]])
    ensures RID(p, |before|) !in IssuedFor(sizes)
    ensures IssuedFor(sizes[p := before + [size]]) == IssuedFor(sizes) + {RID(p, |before|)}
  {
    var more := sizes[p := before + [size]];
    forall q, k: nat ensures RID(q, k) in IssuedFor(more) <==> RID(q, k) in IssuedFor(sizes) || RID(q, k) == RID(p, |before|) {
      assert RID(q, k) in IssuedFor(more) <==> q in more && k < |more[q]|;
      assert RID(q, k) in IssuedFor(sizes) <==> q in sizes && k < |sizes[q]|;
    }
    forall r ensures r in IssuedFor(more) <==> r in IssuedFor(sizes) + {RID(p, |before|)} {
    }
  }

  /** A heap as its pool shows it: page contents, tuple sizes by page, last page (-1 if there is none), next page id. */
  datatype Heap = Heap(view: map<int, PageBytes>, sizes: map<int, seq<nat>>, last: int, next: nat)
  {
    ghost predicate Ok() {
      && AllAccount(view, sizes)
      && (if last == -1 then sizes == map[] else last in sizes)
      && (forall p :: p in view <==> 0 <= p < next)
    }

    /** The last page has room for so many bytes. */
    ghost predicate Room(size: nat)
      requires Ok()
    {
      last != -1 && Fits(view[last], size)
    }

    /** The page the next tuple goes to, its bytes, and the sizes stored on it so far. */
    ghost function Target(size: nat): (t: (int, PageBytes, seq<nat>))
      requires Ok() && size <= PAGE_SIZE - SLOT_HEADER - 64
      ensures Accounts(t.1, t.2) && Storable(t.1, size)
    {
      FormatAccounts(ZeroPage());
      FormatFits(ZeroPage(), size);
      if Room(size) then (last, view[last], sizes[last]) else (next, Format(ZeroPage()), [])
    }
  }

  /** A heap with one more tuple, and the record id of the tuple. */
  ghost function Inserted(h: Heap, kept: seq<Byte>): (r: (Heap, RID))
    requires h.Ok() && |kept| <= PAGE_SIZE - SLOT_HEADER - 64
  {
    hide Fits, Stored, Accounts, Format, Storable;
    var (p, page, before) := h.Target(|kept|);
    var stored := Stored(page, kept);
    (Heap(h.view[p := stored], h.sizes[p := before + [|kept|]], p, if p == h.next then h.next + 1 else h.next),
     RID(p, |before|))
  }

  /** The record id is new, and the page headers go on accounting for their tuples. */
  lemma InsertedKeeps(h: Heap, kept: seq<Byte>)
    requires h.Ok() && |kept| <= PAGE_SIZE - SLOT_HEADER - 64
    ensures var (g, rid) := Inserted(h, kept);
            g.Ok() && rid !in IssuedFor(h.sizes) && IssuedFor(g.sizes) == IssuedFor(h.sizes) + {rid}
  {
    hide Fits, Stored, Accounts, Format, IssuedFor;
    var (p, page, before) := h.Target(|kept|);
    StoredAccounts(page, before, kept);
    AddTuple(h.view, h.sizes, p, Stored(page, kept), before, |kept|);
  }

  /** The tuple stays on the last page exactly if that has room by its own accounts. */
  lemma InsertedMeans(h: Heap, tuple: seq<Byte>)
    requires h.Ok() && h.last != -1
    ensures var size, before := if |tuple| <= 4020 then |tuple| else 4020, h.sizes[h.last];
            var (g, rid) := Inserted(h, Kept(tuple));
            && g.last == rid.pageId
            && if |before| < 102 && 12 + Sum(before) + size + 8 <= 4096
               then rid == RID(h.last, |before|) && g.sizes == h.sizes[rid.pageId := before + [size]]
               else rid == RID(h.next, 0) && g.sizes == h.sizes[rid.pageId := [size]]
  {
    hide Stored, Format, Accounts, Fits;
    var kept := Kept(tuple);
    RoomMeans(h.view[h.last], h.sizes[h.last], |kept|);
    var none: seq<nat> := [];
    assert none + [|kept|] == [|kept|];
  }
}
