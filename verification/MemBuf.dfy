/** Buffer descriptors (mem_buf_desc_t in src/vma/proto/mem_buf_desc.h), reduced to the fields that
    decide where a buffer may be: its link, its two reference counts and its owning ring. */
module MemBuf {

  class Desc {
    var next: Desc?
    /** n_ref_count, the number of interested receivers. */
    var refs: int
    /** lwip_pbuf.pbuf.ref */
    var pbufRefs: int
    var owner: nat

    constructor ()
      ensures next == null && refs == 0 && pbufRefs == 0 && owner == 0
    {
      next, refs, pbufRefs, owner := null, 0, 0, 0;
    }
  }
}
