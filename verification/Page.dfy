/** The in-memory page object whose bytes clients read and change while they hold a pin. */
module Pages {
  import opened Bytes
  import opened FrameModel

  datatype PageTemperature = HOT | COLD | NORMAL

  class Page {
    var data: PageBytes
    var pageId: int
    var dirty: bool
    var pinCount: nat
    var temperature: PageTemperature

    constructor ()
      ensures data == ZeroPage() && pageId == -1 && !dirty && pinCount == 0 && temperature == NORMAL
    {
      data, pageId, dirty, pinCount, temperature := ZeroPage(), -1, false, 0, NORMAL;
    }

    /** `Reset` leaves the temperature as it was. */
    method Reset()
      modifies this`data, this`dirty, this`pinCount
      ensures data == ZeroPage() && !dirty && pinCount == 0
    {
      data, dirty, pinCount := ZeroPage(), false, 0;
    }

    method Pin()
      modifies this`pinCount
      ensures pinCount == old(pinCount) + 1
    {
      pinCount := pinCount + 1;
    }

    method Unpin()
      modifies this`pinCount
      ensures pinCount == if old(pinCount) > 0 then old(pinCount) - 1 else 0
    {
      if pinCount > 0 {
        pinCount := pinCount - 1;
      }
    }
  }

  /** A frame of the pool as a value. */
  ghost function FrameOf(page: Page?): Frame
    reads page
  {
    if page == null then Empty else Resident(page.pageId, page.data, page.dirty, page.pinCount)
  }
}

/** The page store on disk: reads, writes and id allocation, without the file underneath. */
module Disk {
  import opened Bytes

  class DiskManager {
    var blocks: map<int, PageBytes>
    var nextPageId: nat

    /** A database file of `pages` pages. */
    constructor (pages: nat, contents: map<int, PageBytes>)
      requires forall id :: id in contents ==> 0 <= id < pages
      ensures blocks == contents && nextPageId == pages
    {
      blocks, nextPageId := contents, pages;
    }

    /** Reads into a zeroed buffer; past the end of the file the buffer stays as it is. */
    method ReadPage(pageId: int) returns (data: PageBytes)
      ensures data == if pageId in blocks then blocks[pageId] else ZeroPage()
    {
      data := if pageId in blocks then blocks[pageId] else ZeroPage();
    }

    method WritePage(pageId: int, data: PageBytes)
      modifies this`blocks
      ensures blocks == old(blocks)[pageId := data]
    {
      blocks := blocks[pageId := data];
    }

    method AllocPage() returns (pageId: nat)
      modifies this`nextPageId
      ensures pageId == old(nextPageId) && nextPageId == old(nextPageId) + 1
    {
      pageId := nextPageId;
      nextPageId := nextPageId + 1;
    }
  }
}
