/** The records of `src/kv_store.cpp`. */
module Entries {
  import opened Bytes
  import opened ZSets

  /** `size_t(-1)`, the heap index of an entry without a deadline. */
  const NO_INDEX := -1

  class Entry {
    const key: bytes
    const isZset: bool
    var heapIdx: int
    var str: bytes
    const zset: ZSet

    /** `entry_new` */
    constructor (key: bytes, isZset: bool, str: bytes)
      ensures this.key == key && this.isZset == isZset && this.str == str && heapIdx == NO_INDEX
      ensures zset.Valid() && zset.scores == map[] && fresh(zset.Repr())
    {
      this.key, this.isZset, this.str, heapIdx := key, isZset, str, NO_INDEX;
      zset := new ZSet();
    }
  }
}
