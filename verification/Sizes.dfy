/**
 Sizes the whole kernel shares.
 */
module Sizes {

  /** 2^32: unsigned int arithmetic wraps here, and so do addresses. */
  const WORD: nat := 0x1_0000_0000

  const PAGE_SIZE: nat := 4096
}
