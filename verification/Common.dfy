/** Record ids: a page and a slot on it. */
module Records {

  datatype RID = RID(pageId: int, slotNum: int)
}

/** Values that may be absent. */
module Wrappers {

  datatype Option<T> = None | Some(value: T)
}
